/**
 Powers modulo p, and what a prime exponent tells about them.
 */
module Modular {
  function Pow(b: nat, e: nat): nat {
    if e == 0 then 1 else b * Pow(b, e - 1)
  }

  function ModPow(b: nat, e: nat, p: nat): nat
    requires p > 0
  {
    Pow(b, e) % p
  }

  predicate IsPrime(q: nat) {
    q > 1 && forall d :: 1 < d < q ==> q % d != 0
  }

  // ---- Remainders ---------------------------------------------------------

  lemma SmallMultiple(p: int, x: int)
    requires -p < p * x < p
    ensures x == 0
  {
    if x >= 1 {
      MulMonotone(p, 1, x);
    } else if x <= -1 {
      MulMonotone(p, x, -1);
    }
  }

  lemma MulMonotone(p: int, x: int, y: int)
    requires p >= 0 && x <= y
    ensures p * x <= p * y
  {
  }

  lemma MulAssociates(x: int, y: int, z: int)
    ensures x * (y * z) == (x * y) * z
  {
  }

  lemma RemainderUnique(a: int, k: int, r: int, p: nat)
    requires 0 <= r < p && a == p * k + r
    ensures a % p == r && a / p == k
  {
    var (d, m) := (a / p, a % p);
    Distribute(p, d, k);
    SmallMultiple(p, d - k);
  }

  lemma Distribute(p: int, x: int, y: int)
    ensures p * (x - y) == p * x - p * y
    ensures p * (x + y) == p * x + p * y
  {
  }

  lemma AddMultiple(a: int, k: int, p: nat)
    requires p > 0
    ensures (a + p * k) % p == a % p
  {
    assert a + p * k == p * (a / p + k) + a % p;
    RemainderUnique(a + p * k, a / p + k, a % p, p);
  }

  lemma MulMod(a: int, b: int, p: nat)
    requires p > 0
    ensures (a * b) % p == ((a % p) * (b % p)) % p
  {
    var (x, m, y, n) := (a / p, a % p, b / p, b % p);
    SplitProduct(a, b, p, x, m, y, n);
    SameRemainder(a * b, m * n, x * b + m * y, p);
  }

  lemma SameRemainder(a: int, b: int, k: int, p: nat)
    requires p > 0 && a == b + p * k
    ensures a % p == b % p
  {
    AddMultiple(b, k, p);
  }

  lemma MulEqual(a: int, b: int, a': int, b': int)
    requires a == a' && b == b'
    ensures a * b == a' * b'
  {
  }

  lemma SplitProduct(a: int, b: int, p: int, x: int, m: int, y: int, n: int)
    requires a == p * x + m && b == p * y + n
    ensures a * b == m * n + p * (x * b + m * y)
  {
    MulEqual(a, b, p * x + m, b);
    assert (p * x + m) * b == p * x * b + m * b;
    MulEqual(m, b, m, p * y + n);
    assert m * (p * y + n) == m * (p * y) + m * n;
    assert m * (p * y) == p * (m * y);
    assert p * x * b == p * (x * b);
    Distribute(p, x * b, m * y);
  }

  lemma MulModLeft(a: int, b: int, p: nat)
    requires p > 0
    ensures (a * b) % p == ((a % p) * b) % p
  {
    MulMod(a, b, p);
    MulMod(a % p, b, p);
    RemainderUnique(a % p, 0, a % p, p);
  }

  // ---- Powers -------------------------------------------------------------

  lemma {:induction false} PowAdd(b: nat, m: nat, n: nat)
    ensures Pow(b, m + n) == Pow(b, m) * Pow(b, n)
  {
    if m > 0 {
      PowAdd(b, m - 1, n);
      MulAssociates(b, Pow(b, m - 1), Pow(b, n));
    }
  }

  lemma {:induction false} PowMul(b: nat, m: nat, n: nat)
    ensures Pow(b, m * n) == Pow(Pow(b, m), n)
  {
    if n == 0 {
      assert m * n == 0;
    } else {
      PowMul(b, m, n - 1);
      assert m * n == m + m * (n - 1);
      assert m * (n - 1) >= 0;
      PowAdd(b, m, m * (n - 1));
    }
  }

  lemma {:induction false} PowOfRemainder(b: nat, e: nat, p: nat)
    requires p > 0
    ensures ModPow(b % p, e, p) == ModPow(b, e, p)
  {
    if e > 0 {
      PowOfRemainder(b, e - 1, p);
      MulMod(b, Pow(b, e - 1), p);
      MulMod(b % p, Pow(b % p, e - 1), p);
      RemainderUnique(b % p, 0, b % p, p);
    }
  }

  lemma {:induction false} PowOfOne(e: nat)
    ensures Pow(1, e) == 1
  {
    if e > 0 {
      PowOfOne(e - 1);
    }
  }

  /** (b^m mod p)^n mod p = b^(m n) mod p. */
  lemma PowOfPower(b: nat, m: nat, n: nat, p: nat)
    requires p > 0
    ensures m * n >= 0 && ModPow(ModPow(b, m, p), n, p) == ModPow(b, m * n, p)
  {
    assert m * n >= 0;
    PowOfRemainder(Pow(b, m), n, p);
    PowMul(b, m, n);
  }

  lemma PowerOfUnit(b: nat, m: nat, n: nat, p: nat)
    requires p > 1 && ModPow(b, m, p) == 1
    ensures m * n >= 0 && ModPow(b, m * n, p) == 1
  {
    PowOfPower(b, m, n, p);
    PowOfOne(n);
  }

  // ---- Primes -------------------------------------------------------------

  /** Modulo a prime every nonzero a has an inverse, found by division with
      remainder. */
  lemma {:induction false} Inverse(a: nat, q: nat) returns (u: nat)
    requires IsPrime(q) && 0 < a < q
    ensures (u * a) % q == 1
    decreases a
  {
    if a == 1 {
      u := 1;
    } else {
      var (k, r) := (q / a, q % a);
      assert k <= q by { MulMonotone(k, 1, a); }
      var w := Inverse(r, q);
      u := w * (q - k);
      InverseStep(a, q, k, r, w);
      AddMultiple(w * r, w * (a - 1), q);
    }
  }

  lemma InverseStep(a: int, q: int, k: int, r: int, w: int)
    requires q == a * k + r
    ensures w * (q - k) * a == w * r + q * (w * (a - 1))
  {
    assert (q - k) * a == q * a - k * a;
    assert (q - k) * a == r + q * (a - 1);
    assert w * (q - k) * a == w * ((q - k) * a);
    Distribute(w, r, q * (a - 1));
    assert w * (q * (a - 1)) == q * (w * (a - 1));
  }

  /** A prime divides no product of two smaller positive numbers. */
  lemma ProductNotDivisible(x: nat, y: nat, q: nat)
    requires IsPrime(q) && 0 < x < q && 0 < y < q
    ensures (x * y) % q != 0
  {
    var u := Inverse(x, q);
    assert u * x * y == u * (x * y);
    assert (u * x * y) % q == y by {
      MulModLeft(u * x, y, q);
      RemainderUnique(y, 0, y, q);
    }
    assert (u * (x * y)) % q == ((u % q) * ((x * y) % q)) % q by {
      MulMod(u, x * y, q);
    }
    ZeroFactor(u % q, (x * y) % q, q);
  }

  lemma ZeroFactor(a: int, b: int, q: nat)
    requires q > 0
    ensures b == 0 ==> (a * b) % q == 0
  {
  }

  /** If g^q = g^m = 1 and the prime q does not divide m, then g = 1. */
  lemma OrderIsPrime(g: nat, q: nat, m: nat, p: nat)
    requires p > 1 && IsPrime(q) && ModPow(g, q, p) == 1
    requires m % q != 0 && ModPow(g, m, p) == 1
    ensures g % p == 1
  {
    var u := Inverse(m % q, q);
    var n := m * u;
    assert n % q == 1 by {
      MulModLeft(m, u, q);
      assert (m % q) * u == u * (m % q);
    }
    var v := n / q;
    assert n == q * v + 1;
    assert n >= 1 && v >= 0;
    PowerOfUnit(g, m, u, p);
    PowerOfUnit(g, q, v, p);
    PowAdd(g, q * v, 1);
    assert Pow(g, 1) == g * Pow(g, 0) == g;
    MulModLeft(Pow(g, q * v), g, p);
    assert Pow(g, n) == Pow(g, q * v) * g;
  }
}
