/**
 * Integer powers and the modular-arithmetic facts the toy cryptography relies on.
 * `ModPow` is the three-argument `pow(b, e, m)` of the host language, restricted to
 * non-negative bases and exponents; `%` on a positive modulus agrees with that
 * language's floored remainder, so no sign correction is needed.
 */
module ModArith {

  /** Plain integer power, the reference definition for `ModPow`. */
  function Pow(b: int, e: nat): int
  {
    if e == 0 then 1 else b * Pow(b, e - 1)
  }

  lemma {:induction false} MulComm(a: int, b: int)
    ensures a * b == b * a
  {
  }

  lemma {:induction false} MulAssoc(a: int, b: int, c: int)
    ensures (a * b) * c == a * (b * c)
  {
  }

  lemma {:induction false} MulDist(a: int, b: int, c: int)
    ensures (a + b) * c == a * c + b * c
  {
  }

  lemma {:induction false} MulAtLeast(d: int, m: int)
    requires d >= 1 && m > 0
    ensures d * m >= m
  {
    MulDist(d - 1, 1, m);
  }

  /** Euclidean division: `x` is its quotient times `m` plus its remainder. */
  lemma {:induction false} DivMod(x: int, m: int)
    requires m > 0
    ensures x == (x / m) * m + x % m && 0 <= x % m < m
  {
  }

  /** Quotient and remainder are unique. */
  lemma {:induction false} ModUnique(x: int, m: int, q: int, r: int)
    requires m > 0 && 0 <= r < m && x == q * m + r
    ensures x % m == r && x / m == q
  {
    var q0, r0 := x / m, x % m;
    DivMod(x, m);
    if q0 > q {
      MulDist(q0 - q, q, m);
      MulAtLeast(q0 - q, m);
    } else if q0 < q {
      MulDist(q - q0, q0, m);
      MulAtLeast(q - q0, m);
    }
  }

  lemma {:induction false} ModAddMultiple(x: int, k: int, m: int)
    requires m > 0
    ensures (x + k * m) % m == x % m
  {
    DivMod(x, m);
    MulDist(x / m, k, m);
    ModUnique(x + k * m, m, x / m + k, x % m);
  }

  lemma {:induction false} ModAdd(a: int, b: int, m: int)
    requires m > 0
    ensures (a + b) % m == (a % m + b % m) % m
  {
    DivMod(a, m);
    DivMod(b, m);
    MulDist(a / m, b / m, m);
    ModAddMultiple(a % m + b % m, a / m + b / m, m);
  }

  lemma {:induction false} ModMulLeft(a: int, b: int, m: int)
    requires m > 0
    ensures (a * b) % m == ((a % m) * b) % m
  {
    var q, r := a / m, a % m;
    DivMod(a, m);
    MulDist(q * m, r, b);
    MulAssoc(q, m, b);
    MulComm(m, b);
    MulAssoc(q, b, m);
    assert a * b == r * b + (q * b) * m;
    ModAddMultiple(r * b, q * b, m);
  }

  lemma {:induction false} ModMul(a: int, b: int, m: int)
    requires m > 0
    ensures (a * b) % m == ((a % m) * (b % m)) % m
  {
    var ra, rb := a % m, b % m;
    ModMulLeft(a, b, m);
    ModMulLeft(b, ra, m);
    MulComm(ra, b);
    MulComm(rb, ra);
  }

  /** Incrementing a residue and reducing again is incrementing first. */
  lemma {:induction false} ModIncrement(a: int, n: int)
    requires n >= 1
    ensures ((a % n) + 1) % n == (a + 1) % n
  {
    DivMod(a, n);
    assert (a % n) + 1 == (a + 1) + (-(a / n)) * n;
    ModAddMultiple(a + 1, -(a / n), n);
  }

  /** Reducing modulo a multiple of `m` first does not change the residue modulo `m`. */
  lemma {:induction false} ModOfMultipleModulus(x: int, m: int, k: int)
    requires m > 0 && k > 0
    ensures (x % (m * k)) % m == x % m
  {
    var q := x / (m * k);
    DivMod(x, m * k);
    MulAssoc(q, k, m);
    MulComm(k, m);
    MulAssoc(q, m, k);
    assert x == x % (m * k) + (q * k) * m;
    ModAddMultiple(x % (m * k), q * k, m);
  }

  lemma {:induction false} PowAdd(b: int, e1: nat, e2: nat)
    ensures Pow(b, e1 + e2) == Pow(b, e1) * Pow(b, e2)
  {
    if e1 > 0 {
      PowAdd(b, e1 - 1, e2);
      assert Pow(b, e1 + e2) == b * Pow(b, e1 - 1 + e2);
      MulAssoc(b, Pow(b, e1 - 1), Pow(b, e2));
    }
  }

  lemma {:induction false} PowMul(b: int, e1: nat, e2: nat)
    ensures Pow(b, e1 * e2) == Pow(Pow(b, e1), e2)
  {
    if e2 > 0 {
      calc {
        Pow(b, e1 * e2);
        { assert e1 * e2 == e1 * (e2 - 1) + e1; }
        Pow(b, e1 * (e2 - 1) + e1);
        { PowAdd(b, e1 * (e2 - 1), e1); }
        Pow(b, e1 * (e2 - 1)) * Pow(b, e1);
        { PowMul(b, e1, e2 - 1); }
        Pow(Pow(b, e1), e2 - 1) * Pow(b, e1);
      }
    }
  }

  lemma {:induction false} PowOne(e: nat)
    ensures Pow(1, e) == 1
  {
    if e > 0 {
      PowOne(e - 1);
    }
  }

  /** Reducing the right factor first does not change a product's residue. */
  lemma {:induction false} ModMulRight(a: int, b: int, m: int)
    requires m > 0
    ensures (a * (b % m)) % m == (a * b) % m
  {
    var rb := b % m;
    ModMulLeft(b, a, m);
    ModMulLeft(rb, a, m);
    ModUnique(rb, m, 0, rb);
    MulComm(a, b);
    MulComm(a, rb);
  }

  lemma {:induction false} PowModBase(a: int, e: nat, m: int)
    requires m > 0
    ensures Pow(a % m, e) % m == Pow(a, e) % m
  {
    if e > 0 {
      var x := a % m;
      var p1 := Pow(x, e - 1);
      var p2 := Pow(a, e - 1);
      PowModBase(a, e - 1, m);
      assert p1 % m == p2 % m;
      ModMulRight(x, p1, m);
      ModMulRight(x, p2, m);
      assert (x * p1) % m == (x * p2) % m;
      ModMulLeft(a, p2, m);
    }
  }

  /**
   * Modular exponentiation by repeated multiplication, reducing after every step.
   * Its result always lies in [0, m) and agrees with the plain power reduced once.
   */
  function ModPow(b: nat, e: nat, m: nat): (r: nat)
    requires m > 0
    ensures r < m
    ensures r == Pow(b, e) % m
  {
    if e == 0 then 1 % m
    else
      var rest := ModPow(b, e - 1, m);
      ModMulRight(b, Pow(b, e - 1), m);
      (b * rest) % m
  }
}
