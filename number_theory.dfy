/**
  Exact integer arithmetic that the key derivation and the cipher rest on:
  powers, Euclidean remainders, greatest common divisors, primes, and the
  two facts that make textbook RSA decrypt what it encrypts (Fermat's little
  theorem and the Chinese remainder argument for two distinct primes).
  GMP's arbitrary-precision integers are Dafny's unbounded `int`.
*/
module NumberTheory {

  // ---------------------------------------------------------------------
  // Powers
  // ---------------------------------------------------------------------

  /** b raised to the n-th power, the value mpz_powm reduces modulo N. */
  function Pow(b: int, n: nat): int
    decreases n
  {
    if n == 0 then 1 else b * Pow(b, n - 1)
  }

  lemma {:induction false} PowAdd(b: int, m: nat, n: nat)
    ensures Pow(b, m + n) == Pow(b, m) * Pow(b, n)
    decreases m
  {
    if m > 0 {
      PowAdd(b, m - 1, n);
      assert Pow(b, m + n) == b * Pow(b, m - 1 + n);
    }
  }

  lemma {:induction false} PowMul(b: int, m: nat, n: nat)
    ensures Pow(b, m * n) == Pow(Pow(b, m), n)
    decreases n
  {
    if n > 0 {
      PowMul(b, m, n - 1);
      assert m * n == m * (n - 1) + m;
      PowAdd(b, m * (n - 1), m);
    }
  }

  lemma {:induction false} PowOfOne(n: nat)
    ensures Pow(1, n) == 1
    decreases n
  {
    if n > 0 {
      PowOfOne(n - 1);
    }
  }

  lemma {:induction false} PowOfSquare(b: int, k: nat)
    ensures Pow(b, 2 * k) == Pow(b * b, k)
    decreases k
  {
    if k > 0 {
      PowOfSquare(b, k - 1);
      PowAdd(b, 2 * (k - 1), 2);
      assert Pow(b, 2) == b * b;
    }
  }

  // ---------------------------------------------------------------------
  // Euclidean remainder
  // ---------------------------------------------------------------------

  lemma MulAtLeast(a: int, n: int)
    requires a >= 1 && n > 0
    ensures a * n >= n
  {
    assert a * n - n == (a - 1) * n;
  }

  /** The only multiple of n strictly between -n and n is 0. */
  lemma SmallMultipleIsZero(t: int, n: int)
    requires n > 0 && -n < t * n < n
    ensures t == 0
  {
    if t >= 1 {
      MulAtLeast(t, n);
      assert false;
    } else if t <= -1 {
      MulAtLeast(-t, n);
      assert false;
    }
  }

  /** The remainder is the unique r in [0, n) with x == k * n + r. */
  lemma ModUnique(x: int, k: int, r: int, n: int)
    requires n > 0 && 0 <= r < n && x == k * n + r
    ensures x % n == r && x / n == k
  {
    var q := x / n;
    assert x == q * n + x % n;
    assert (q - k) * n == r - x % n;
    SmallMultipleIsZero(q - k, n);
  }

  lemma ModAddMultiple(x: int, k: int, n: int)
    requires n > 0
    ensures (x + k * n) % n == x % n
  {
    assert x == (x / n) * n + x % n;
    assert x + k * n == (x / n + k) * n + x % n;
    ModUnique(x + k * n, x / n + k, x % n, n);
  }

  lemma ModOfMultiple(k: int, n: int)
    requires n > 0
    ensures (k * n) % n == 0
  {
    ModUnique(k * n, k, 0, n);
  }

  lemma ModOfMod(x: int, n: int)
    requires n > 0
    ensures (x % n) % n == x % n
  {
    ModUnique(x % n, 0, x % n, n);
  }

  lemma ModAdd(x: int, y: int, n: int)
    requires n > 0
    ensures (x + y) % n == (x % n + y % n) % n
  {
    assert x == (x / n) * n + x % n;
    assert y == (y / n) * n + y % n;
    assert x + y == (x % n + y % n) + (x / n + y / n) * n;
    ModAddMultiple(x % n + y % n, x / n + y / n, n);
  }

  lemma ModMul(x: int, y: int, n: int)
    requires n > 0
    ensures (x * y) % n == ((x % n) * (y % n)) % n
  {
    var a, r := x / n, x % n;
    var b, s := y / n, y % n;
    assert x == a * n + r;
    assert y == b * n + s;
    assert x * y == r * s + (a * b * n + a * s + r * b) * n;
    ModAddMultiple(r * s, a * b * n + a * s + r * b, n);
  }

  /** Two values are congruent exactly when their difference is a multiple. */
  lemma ModSub(x: int, y: int, n: int)
    requires n > 0
    ensures (x - y) % n == 0 <==> x % n == y % n
  {
    ModAdd(x - y, y, n);
    ModOfMod(y, n);
    if (x - y) % n == 0 {
      assert x % n == (y % n) % n;
    } else {
      assert x == (x - y) + y;
      assert x % n == ((x - y) % n + y % n) % n;
      var r := (x - y) % n;
      if x % n == y % n {
        // (r + y%n) % n == y % n with 0 < r < n is impossible
        var s := y % n;
        if r + s < n {
          ModUnique(r + s, 0, r + s, n);
        } else {
          ModUnique(r + s, 1, r + s - n, n);
        }
      }
    }
  }

  lemma PowModBase(b: int, e: nat, n: int)
    requires n > 0
    ensures Pow(b, e) % n == Pow(b % n, e) % n
    decreases e
  {
    if e > 0 {
      PowModBase(b, e - 1, n);
      ModMul(b, Pow(b, e - 1), n);
      ModMul(b % n, Pow(b % n, e - 1), n);
      ModOfMod(b, n);
    }
  }

  /** A linear combination of multiples of d is a multiple of d. */
  lemma DividesLinear(d: int, a: int, b: int, x: int, y: int)
    requires d > 0 && a % d == 0 && b % d == 0
    ensures (x * a + y * b) % d == 0
  {
    assert a == (a / d) * d;
    assert b == (b / d) * d;
    assert x * a + y * b == (x * (a / d) + y * (b / d)) * d;
    ModOfMultiple(x * (a / d) + y * (b / d), d);
  }

  lemma DivisorAtMost(d: int, n: int)
    requires d > 0 && n > 0 && n % d == 0
    ensures d <= n
  {
    var k := n / d;
    assert n == k * d;
    if k < 1 {
      assert false;
    }
    MulAtLeast(k, d);
  }

  // ---------------------------------------------------------------------
  // Greatest common divisor
  // ---------------------------------------------------------------------

  /** Euclid's algorithm; gcd(e, φ) = 1 is the documented precondition of the key search. */
  function Gcd(a: nat, b: nat): nat
    decreases b
  {
    if b == 0 then a else Gcd(b, a % b)
  }

  lemma {:induction false} GcdDivides(a: nat, b: nat)
    requires a > 0 || b > 0
    ensures Gcd(a, b) > 0 && a % Gcd(a, b) == 0 && b % Gcd(a, b) == 0
    decreases b
  {
    if b == 0 {
      ModOfMultiple(1, a);
      ModOfMultiple(0, a);
    } else {
      GcdDivides(b, a % b);
      var g := Gcd(a, b);
      assert a == (a / b) * b + (a % b);
      DividesLinear(g, b, a % b, a / b, 1);
    }
  }

  /** Coefficients x, y with x*a + y*b == Gcd(a, b), by the extended Euclidean algorithm. */
  function Bezout(a: nat, b: nat): (c: (int, int))
    ensures c.0 * a + c.1 * b == Gcd(a, b)
    decreases b
  {
    if b == 0 then (1, 0)
    else
      var c' := Bezout(b, a % b);
      assert a % b == a - (a / b) * b;
      assert c'.1 * a + (c'.0 - c'.1 * (a / b)) * b == c'.0 * b + c'.1 * (a % b);
      (c'.1, c'.0 - c'.1 * (a / b))
  }

  /** Every common divisor of a and b divides Gcd(a, b). */
  lemma CommonDivisorDividesGcd(a: nat, b: nat, d: int)
    requires d > 0 && a % d == 0 && b % d == 0
    ensures Gcd(a, b) % d == 0
  {
    var c := Bezout(a, b);
    DividesLinear(d, a, b, c.0, c.1);
  }

  // ---------------------------------------------------------------------
  // Primes
  // ---------------------------------------------------------------------

  ghost predicate IsPrime(p: nat)
  {
    p >= 2 && forall d :: 2 <= d < p ==> p % d != 0
  }

  /** A computable trial-division check, used to establish primality of literals. */
  predicate NoDivisorIn(p: nat, lo: nat, hi: nat)
    requires lo >= 1
    decreases hi - lo
  {
    lo >= hi || (p % lo != 0 && NoDivisorIn(p, lo + 1, hi))
  }

  lemma {:induction false} NoDivisorInSound(p: nat, lo: nat, hi: nat)
    requires lo >= 1 && NoDivisorIn(p, lo, hi)
    ensures forall d :: lo <= d < hi ==> p % d != 0
    decreases hi - lo
  {
    if lo < hi {
      NoDivisorInSound(p, lo + 1, hi);
    }
  }

  lemma PrimeByTrialDivision(p: nat)
    requires p >= 2 && NoDivisorIn(p, 2, p)
    ensures IsPrime(p)
  {
    NoDivisorInSound(p, 2, p);
  }

  lemma PrimeCoprime(p: nat, a: nat)
    requires IsPrime(p) && a % p != 0
    ensures Gcd(p, a) == 1
  {
    GcdDivides(p, a);
    var g := Gcd(p, a);
    DivisorAtMost(g, p);
  }

  lemma EuclidAlgebra(p: int, a: int, b: int, q: int, r: int, x: int, y: int)
    requires x * p + y * r == 1 && a == q * p + r
    ensures b == (b * x - y * q * b) * p + y * (a * b)
  {
    calc {
      b;
      b * (x * p + y * r);
      (b * x) * p + y * (r * b);
      { assert r * b == a * b - q * p * b; }
      (b * x) * p + y * (a * b - q * p * b);
      (b * x - y * q * b) * p + y * (a * b);
    }
  }

  /** Euclid's lemma: a prime dividing a product divides one of its factors. */
  lemma Euclid(p: nat, a: int, b: int)
    requires IsPrime(p) && (a * b) % p == 0
    ensures a % p == 0 || b % p == 0
  {
    if a % p != 0 {
      var r: nat := a % p;
      ModOfMod(a, p);
      PrimeCoprime(p, r);
      var c := Bezout(p, r);
      var q := a / p;
      assert a == q * p + r;
      EuclidAlgebra(p, a, b, q, r, c.0, c.1);
      ModOfMultiple(1, p);
      DividesLinear(p, p, a * b, b * c.0 - c.1 * q * b, c.1);
    }
  }

  lemma DistinctPrimesCoprime(p: nat, q: nat)
    requires IsPrime(p) && IsPrime(q) && p != q
    ensures p % q != 0
  {
    if q > p {
      ModUnique(p, 0, p, q);
    }
  }

  /** Chinese remainder step: a multiple of two distinct primes is a multiple of their product. */
  lemma MultipleOfBothPrimes(p: nat, q: nat, x: int)
    requires IsPrime(p) && IsPrime(q) && p != q
    requires x % p == 0 && x % q == 0
    ensures x % (p * q) == 0
  {
    var s := x / p;
    assert x == s * p;
    assert (p * s) % q == 0;
    Euclid(q, p, s);
    DistinctPrimesCoprime(p, q);
    var t := s / q;
    assert s == t * q;
    assert x == t * (p * q);
    ModOfMultiple(t, p * q);
  }

  // ---------------------------------------------------------------------
  // Binomial coefficients and Fermat's little theorem
  // ---------------------------------------------------------------------

  /** Pascal's rule. */
  function Binom(n: nat, k: nat): nat
    decreases n
  {
    if k == 0 then 1 else if n == 0 then 0 else Binom(n - 1, k - 1) + Binom(n - 1, k)
  }

  lemma {:induction false} BinomAboveTop(n: nat, k: nat)
    requires k > n
    ensures Binom(n, k) == 0
    decreases n
  {
    if n > 0 {
      BinomAboveTop(n - 1, k - 1);
      BinomAboveTop(n - 1, k);
    }
  }

  lemma {:induction false} BinomTop(n: nat)
    ensures Binom(n, n) == 1
    decreases n
  {
    if n > 0 {
      BinomTop(n - 1);
      BinomAboveTop(n - 1, n);
    }
  }

  lemma {:induction false} BinomOne(n: nat)
    ensures Binom(n, 1) == n
    decreases n
  {
    if n > 0 {
      BinomOne(n - 1);
    }
  }

  /** The absorption identity k * C(n, k) == n * C(n-1, k-1). */
  lemma {:induction false} BinomAbsorb(n: nat, k: nat)
    requires n >= 1 && k >= 1
    ensures k * Binom(n, k) == n * Binom(n - 1, k - 1)
    decreases n
  {
    if n == 1 {
      if k > 1 {
        BinomAboveTop(1, k);
        BinomAboveTop(0, k - 1);
      }
    } else if k == 1 {
      BinomOne(n);
    } else {
      BinomAbsorb(n - 1, k - 1);
      BinomAbsorb(n - 1, k);
      AbsorbAlgebra(n, k, Binom(n - 1, k - 1), Binom(n - 1, k), Binom(n - 2, k - 2), Binom(n - 2, k - 1));
    }
  }

  lemma AbsorbAlgebra(n: int, k: int, a: int, b: int, c: int, d: int)
    requires (k - 1) * a == (n - 1) * c && k * b == (n - 1) * d && a == c + d
    ensures k * (a + b) == n * a
  {
    assert k * a == (k - 1) * a + a;
    assert (n - 1) * c + (n - 1) * d == (n - 1) * a;
  }

  /** A prime divides every inner binomial coefficient of its own row. */
  lemma PrimeDividesBinom(p: nat, k: nat)
    requires IsPrime(p) && 0 < k < p
    ensures Binom(p, k) % p == 0
  {
    BinomAbsorb(p, k);
    var b := Binom(p, k);
    var c := Binom(p - 1, k - 1);
    assert k * b == c * p;
    ModOfMultiple(c, p);
    ModUnique(k, 0, k, p);
    Euclid(p, k, b);
  }

  /** The partial binomial sum C(n,0) + C(n,1)*x + ... + C(n,j)*x^j. */
  function BinomSum(x: int, n: nat, j: nat): int
    decreases j
  {
    Binom(n, j) * Pow(x, j) + (if j == 0 then 0 else BinomSum(x, n, j - 1))
  }

  lemma {:induction false} BinomSumStep(x: int, n: nat, j: nat)
    requires j >= 1
    ensures BinomSum(x, n + 1, j) == x * BinomSum(x, n, j - 1) + BinomSum(x, n, j)
    decreases j
  {
    if j == 1 {
      assert Pow(x, 1) == x;
    } else {
      BinomSumStep(x, n, j - 1);
      assert Pow(x, j) == x * Pow(x, j - 1);
      BinomSumStepAlgebra(x, Binom(n, j - 1), Binom(n, j), Pow(x, j), Pow(x, j - 1),
        BinomSum(x, n, j - 2), BinomSum(x, n, j - 1));
    }
  }

  lemma BinomSumStepAlgebra(x: int, a: int, b: int, pj: int, pj1: int, s2: int, s1: int)
    requires pj == x * pj1 && s1 == a * pj1 + s2
    ensures (a + b) * pj + (x * s2 + s1) == x * s1 + (b * pj + s1)
  {
    assert (a + b) * pj == x * (a * pj1) + b * pj;
    assert x * s1 == x * (a * pj1) + x * s2;
  }

  /** The binomial theorem for (x + 1)^n. */
  lemma {:induction false} BinomialTheorem(x: int, n: nat)
    ensures Pow(x + 1, n) == BinomSum(x, n, n)
    decreases n
  {
    if n > 0 {
      BinomialTheorem(x, n - 1);
      BinomSumStep(x, n - 1, n);
      BinomAboveTop(n - 1, n);
      var s := BinomSum(x, n - 1, n - 1);
      assert BinomSum(x, n - 1, n) == s;
      assert Pow(x + 1, n) == (x + 1) * s;
      assert (x + 1) * s == x * s + s;
    }
  }

  lemma {:induction false} InnerBinomSumMod(x: int, p: nat, j: nat)
    requires IsPrime(p) && j < p
    ensures BinomSum(x, p, j) % p == 1
    decreases j
  {
    if j == 0 {
      ModUnique(1, 0, 1, p);
    } else {
      InnerBinomSumMod(x, p, j - 1);
      PrimeDividesBinom(p, j);
      var b, w, s := Binom(p, j), Pow(x, j), BinomSum(x, p, j - 1);
      assert BinomSum(x, p, j) == b * w + s;
      var c := b / p;
      assert b == c * p + b % p;
      MultipleTimes(b, c, w, p);
      ModAddMultiple(s, c * w, p);
    }
  }

  lemma MultipleTimes(b: int, c: int, w: int, p: int)
    requires b == c * p
    ensures b * w + 0 == (c * w) * p
  {
  }

  /** (x + 1)^p and x^p + 1 leave the same remainder modulo a prime p. */
  lemma FreshmansDream(x: int, p: nat)
    requires IsPrime(p)
    ensures Pow(x + 1, p) % p == (Pow(x, p) + 1) % p
  {
    BinomialTheorem(x, p);
    BinomTop(p);
    InnerBinomSumMod(x, p, p - 1);
    assert Pow(x + 1, p) == Pow(x, p) + BinomSum(x, p, p - 1);
    ModAdd(Pow(x, p), BinomSum(x, p, p - 1), p);
    ModAdd(Pow(x, p), 1, p);
    ModUnique(1, 0, 1, p);
  }

  /** Fermat's little theorem in the form a^p == a (mod p). */
  lemma {:induction false} FermatPowP(a: nat, p: nat)
    requires IsPrime(p)
    ensures Pow(a, p) % p == a % p
    decreases a
  {
    if a == 0 {
      assert Pow(0, p) == 0 * Pow(0, p - 1);
    } else {
      FermatPowP(a - 1, p);
      FreshmansDream(a - 1, p);
      ModAdd(Pow(a - 1, p), 1, p);
      ModAdd(a - 1, 1, p);
    }
  }

  /** Fermat's little theorem: a^(p-1) == 1 (mod p) when p does not divide a. */
  lemma Fermat(a: nat, p: nat)
    requires IsPrime(p) && a % p != 0
    ensures Pow(a, p - 1) % p == 1
  {
    FermatPowP(a, p);
    assert Pow(a, p) == a * Pow(a, p - 1);
    ModSub(Pow(a, p), a, p);
    assert a * (Pow(a, p - 1) - 1) == Pow(a, p) - a;
    Euclid(p, a, Pow(a, p - 1) - 1);
    ModSub(Pow(a, p - 1), 1, p);
    ModUnique(1, 0, 1, p);
  }

  // ---------------------------------------------------------------------
  // Why RSA decrypts: m^(1 + k*φ) == m (mod p*q)
  // ---------------------------------------------------------------------

  lemma PowOfMultiple(m: int, n: nat, p: nat)
    requires p > 0 && m % p == 0 && n >= 1
    ensures Pow(m, n) % p == 0
  {
    assert m == (m / p) * p;
    assert Pow(m, n) == ((m / p) * Pow(m, n - 1)) * p;
    ModOfMultiple((m / p) * Pow(m, n - 1), p);
  }

  lemma PowOneModPrime(m: nat, p: nat, t: nat, e: nat)
    requires IsPrime(p) && e == 1 + t * (p - 1)
    ensures Pow(m, e) % p == m % p
  {
    if m % p == 0 {
      PowOfMultiple(m, 1 + t * (p - 1), p);
    } else {
      Fermat(m, p);
      PowMul(m, p - 1, t);
      assert (p - 1) * t == t * (p - 1);
      PowModBase(Pow(m, p - 1), t, p);
      PowOfOne(t);
      ModUnique(1, 0, 1, p);
      assert Pow(Pow(m, p - 1), t) % p == 1;
      assert Pow(m, 1 + t * (p - 1)) == m * Pow(Pow(m, p - 1), t);
      ModMul(m, Pow(Pow(m, p - 1), t), p);
      ModOfMod(m, p);
      assert (m % p) * 1 == m % p;
    }
  }

  lemma ExponentSplit(k: int, p: int, q: int)
    ensures k * ((p - 1) * (q - 1)) + 1 == 1 + (k * (q - 1)) * (p - 1)
    ensures k * ((p - 1) * (q - 1)) + 1 == 1 + (k * (p - 1)) * (q - 1)
  {
  }

  /**
    For distinct primes p, q and any m in [0, p*q), raising m to a power
    that is 1 more than a multiple of (p-1)*(q-1) gives m back modulo p*q.
  */
  lemma RsaExponent(p: nat, q: nat, m: nat, k: nat)
    requires IsPrime(p) && IsPrime(q) && p != q && m < p * q
    ensures Pow(m, k * ((p - 1) * (q - 1)) + 1) % (p * q) == m
  {
    var e := k * ((p - 1) * (q - 1)) + 1;
    ExponentSplit(k, p, q);
    PowOneModPrime(m, p, k * (q - 1), e);
    PowOneModPrime(m, q, k * (p - 1), e);
    CongruentModBothPrimes(p, q, Pow(m, e), m);
  }

  lemma CongruentModBothPrimes(p: nat, q: nat, x: int, m: nat)
    requires IsPrime(p) && IsPrime(q) && p != q && m < p * q
    requires x % p == m % p && x % q == m % q
    ensures x % (p * q) == m
  {
    ModSub(x, m, p);
    ModSub(x, m, q);
    MultipleOfBothPrimes(p, q, x - m);
    ModSub(x, m, p * q);
    ModUnique(m, 0, m, p * q);
  }
}
