/** Integer arithmetic the RSA engine relies on: divisibility, Python's
    floor remainder, three-argument pow, and the Chinese-remainder
    recombination used for signing. Dafny's / and % are Euclidean; they agree
    with Python's // and % whenever the divisor is positive. */
module Arith {

  /** d divides n (0 divides only 0). */
  predicate Divides(d: int, n: int) {
    if d == 0 then n == 0 else n % d == 0
  }

  /** Euclidean division is determined by quotient and remainder. */
  lemma ModUnique(x: int, m: int, c: int, r: int)
    requires m != 0
    requires x == c * m + r
    requires 0 <= r < (if m > 0 then m else -m)
    ensures x % m == r && x / m == c
  {
    var k := c - x / m;
    assert k * m == x % m - r;
  }

  lemma MultipleDivides(d: int, k: int)
    ensures Divides(d, k * d)
  {
    if d != 0 {
      ModUnique(k * d, d, k, 0);
    }
  }

  /** Divisibility is preserved by integer linear combinations. */
  lemma DividesLinear(d: int, u: int, v: int, c1: int, c2: int)
    requires Divides(d, u) && Divides(d, v)
    ensures Divides(d, c1 * u + c2 * v)
  {
    if d != 0 {
      var ku, kv := u / d, v / d;
      assert u == ku * d && v == kv * d;
      assert c1 * u + c2 * v == (c1 * ku + c2 * kv) * d;
      MultipleDivides(d, c1 * ku + c2 * kv);
    }
  }

  /** For a positive modulus, divisibility of the difference is equality of
      remainders. */
  lemma DividesDifference(m: int, u: int, v: int)
    requires m > 0
    ensures Divides(m, u - v) <==> u % m == v % m
  {
    var qu, qv := u / m, v / m;
    assert u == qu * m + u % m && v == qv * m + v % m;
    assert u - v == (qu - qv) * m + (u % m - v % m);
    if u % m == v % m {
      MultipleDivides(m, qu - qv);
    } else if u % m > v % m {
      ModUnique(u - v, m, qu - qv, u % m - v % m);
    } else {
      ModUnique(u - v, m, qu - qv - 1, u % m - v % m + m);
    }
  }

  lemma ModAddMultiple(a: int, k: int, m: int)
    requires m > 0
    ensures (a + k * m) % m == a % m
  {
    MultipleDivides(m, k);
    DividesDifference(m, a + k * m, a);
  }

  /** Python's x % m, whose result has the sign of m. */
  function PyMod(x: int, m: int): (r: int)
    requires m != 0
    ensures m > 0 ==> 0 <= r < m && r == x % m
    ensures m < 0 ==> m < r <= 0
    ensures Divides(m, x - r)
  {
    var r := if m > 0 || x % m == 0 then x % m else x % m + m;
    PyModDivides(x, m, r);
    r
  }

  lemma PyModDivides(x: int, m: int, r: int)
    requires m != 0
    requires r == if m > 0 || x % m == 0 then x % m else x % m + m
    ensures Divides(m, x - r)
  {
    assert x == (x / m) * m + x % m;
    if r == x % m {
      assert x - r == (x / m) * m;
      MultipleDivides(m, x / m);
    } else {
      assert x - r == (x / m - 1) * m;
      MultipleDivides(m, x / m - 1);
    }
  }

  function Pow(x: int, e: nat): int {
    if e == 0 then 1 else x * Pow(x, e - 1)
  }

  /** Python's pow(x, e, m) for a positive modulus. */
  function ModPow(x: int, e: nat, m: int): (r: int)
    requires m > 0
    ensures 0 <= r < m
  {
    if e == 0 then 1 % m else (x * ModPow(x, e - 1, m)) % m
  }

  lemma MulModRight(x: int, y: int, m: int)
    requires m > 0
    ensures (x * (y % m)) % m == (x * y) % m
  {
    var q := y / m;
    assert y == q * m + y % m;
    assert x * y == x * (y % m) + (x * q) * m;
    ModAddMultiple(x * (y % m), x * q, m);
  }

  /** pow(x, e, m) is the remainder of x to the power e. */
  lemma {:induction false} ModPowIsPowMod(x: int, e: nat, m: int)
    requires m > 0
    ensures ModPow(x, e, m) == Pow(x, e) % m
  {
    if e > 0 {
      ModPowIsPowMod(x, e - 1, m);
      MulModRight(x, Pow(x, e - 1), m);
    }
  }

  /** Garner's recombination (RSASP1, section 5.2.1 of RFC 8017, step 2b):
      from t1 = s mod p, t2 = s mod q and qp = q^-1 mod p it rebuilds the
      unique s below p * q. */
  lemma CrtRecombine(p: int, q: int, qp: int, t1: int, t2: int)
    requires p > 0 && q > 0
    requires (q * qp) % p == 1 % p
    requires 0 <= t1 < p && 0 <= t2 < q
    ensures var sig := t2 + (((t1 - t2) * qp) % p) * q;
      0 <= sig < p * q && sig % q == t2 && sig % p == t1
  {
    var t := ((t1 - t2) * qp) % p;
    var sig := t2 + t * q;
    RecombineBelowProduct(p, q, t, t2);
    ModUnique(sig, q, t, t2);
    if p == 1 {
      ModUnique(sig, p, sig, 0);
    } else {
      ModUnique(1, p, 0, 1);
      RecombineModP(p, q, qp, t1, t2);
    }
  }

  lemma RecombineBelowProduct(p: int, q: int, t: int, t2: int)
    requires 0 <= t < p && 0 <= t2 < q
    ensures 0 <= t2 + t * q < p * q
  {
    assert t * q <= (p - 1) * q;
  }

  lemma RecombineModP(p: int, q: int, qp: int, t1: int, t2: int)
    requires p > 1 && (q * qp) % p == 1
    requires 0 <= t1 < p
    ensures (t2 + (((t1 - t2) * qp) % p) * q) % p == t1
  {
    var d := t1 - t2;
    var t := (d * qp) % p;
    var k := (d * qp) / p;
    var j := (q * qp) / p;
    assert d * qp == k * p + t;
    assert q * qp == j * p + 1;
    RecombineAlgebra(d, qp, q, p, k, j, t);
    ModUnique(t2 + t * q, p, d * j - k * q, t1);
  }

  lemma RecombineAlgebra(d: int, qp: int, q: int, p: int, k: int, j: int, t: int)
    requires d * qp == k * p + t
    requires q * qp == j * p + 1
    ensures t * q == d + (d * j - k * q) * p
  {
  }
}
