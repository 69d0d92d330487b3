/**
  Key derivation of RSA.cpp: Euler's totient of two primes (EulerPhi) and the
  brute-force search for the private exponent (PrivateKey), which tries
  k = 1, 2, ... until k*φ + 1 is a multiple of the generator e and then
  returns d = (k*φ + 1) / e, an inverse of e modulo φ.
*/
module KeyDeriver {
  import opened NumberTheory
  import opened Wrappers

  /** φ(p*q) for two distinct primes p and q. */
  function Totient(p: int, q: int): (phi: int)
    ensures p >= 2 && q >= 2 ==> phi >= 1
  {
    if p >= 2 && q >= 2 then MulAtLeast(p - 1, q - 1); (p - 1) * (q - 1) else (p - 1) * (q - 1)
  }

  /**
    EulerPhi decrements both of its reference arguments and returns their
    product; the updated arguments are returned as primeOne' and primeTwo'.
  */
  method EulerPhi(primeOne: int, primeTwo: int) returns (phi: int, primeOne': int, primeTwo': int)
    ensures primeOne' == primeOne - 1 && primeTwo' == primeTwo - 1
    ensures phi == Totient(primeOne, primeTwo)
    ensures primeOne >= 2 && primeTwo >= 2 ==> phi >= 1
  {
    primeOne' := primeOne - 1;
    primeTwo' := primeTwo - 1;
    phi := primeOne' * primeTwo';
  }

  // ---------------------------------------------------------------------
  // The search, as a specification
  // ---------------------------------------------------------------------

  /** k is a coefficient the search accepts: e divides k*φ + 1. */
  predicate IsCoefficient(phi: int, e: nat, k: int)
    requires e > 0
  {
    (k * phi + 1) % e == 0
  }

  /** d is an inverse of e modulo φ. */
  predicate IsModularInverse(d: int, e: int, phi: int)
    requires phi > 0
  {
    (e * d) % phi == 1 % phi
  }

  /**
    The first accepted coefficient at or after k, or e when there is none
    below e (e itself is never accepted once e >= 2).
  */
  function CoefficientFrom(phi: int, e: nat, k: nat): (r: nat)
    requires 1 <= k <= e
    ensures k <= r <= e
    ensures r < e ==> IsCoefficient(phi, e, r)
    ensures forall j :: k <= j < r ==> !IsCoefficient(phi, e, j)
    decreases e - k
  {
    if k == e || IsCoefficient(phi, e, k) then k else CoefficientFrom(phi, e, k + 1)
  }

  /** The smallest k >= 1 that the search of PrivateKey stops at. */
  function LeastCoefficient(phi: int, e: nat): nat
    requires e >= 1
  {
    CoefficientFrom(phi, e, 1)
  }

  /** The value PrivateKey returns: (k*φ + 1) / e for the least accepted k. */
  function PrivateExponent(phi: nat, e: nat): nat
    requires e >= 1
  {
    (LeastCoefficient(phi, e) * phi + 1) / e
  }

  // ---------------------------------------------------------------------
  // What the search finds
  // ---------------------------------------------------------------------

  lemma DividesTransitive(g: int, e: int, n: int)
    requires g > 0 && e > 0 && e % g == 0 && n % e == 0
    ensures n % g == 0
  {
    assert e == (e / g) * g;
    assert n == (n / e) * e;
    assert n == ((n / e) * (e / g)) * g;
    ModOfMultiple((n / e) * (e / g), g);
  }

  /**
    The search stops below e exactly when gcd(e, φ) = 1: with a common factor
    g > 1 no k*φ + 1 is a multiple of e, so the source loops forever.
  */
  lemma {:induction false} SearchSucceedsIffCoprime(phi: nat, e: nat)
    requires phi >= 1 && e >= 2
    ensures LeastCoefficient(phi, e) < e <==> Gcd(e, phi) == 1
  {
    if LeastCoefficient(phi, e) < e {
      CoefficientGivesCoprime(phi, e, LeastCoefficient(phi, e));
    }
    if Gcd(e, phi) == 1 {
      var k := CoprimeGivesCoefficient(phi, e);
      assert CoefficientFrom(phi, e, 1) <= k;
    }
  }

  lemma CoefficientGivesCoprime(phi: nat, e: nat, r: int)
    requires phi >= 1 && e >= 2 && IsCoefficient(phi, e, r)
    ensures Gcd(e, phi) == 1
  {
    GcdDivides(e, phi);
    var g := Gcd(e, phi);
    DividesTransitive(g, e, r * phi + 1);
    DividesLinear(g, r * phi + 1, phi, 1, -r);
    assert 1 * (r * phi + 1) + (-r) * phi == 1;
    DivisorAtMost(g, 1);
  }

  lemma CoefficientAlgebra(x: int, y: int, e: int, phi: int, t: int, k: int)
    requires x * e + y * phi == 1 && -y == t * e + k
    ensures k * phi + 1 == (x - t * phi) * e
  {
    assert k * phi == -y * phi - t * e * phi;
  }

  lemma CoprimeGivesCoefficient(phi: nat, e: nat) returns (k: nat)
    requires phi >= 1 && e >= 2 && Gcd(e, phi) == 1
    ensures 1 <= k < e && IsCoefficient(phi, e, k)
  {
    var c := Bezout(e, phi);
    k := (-c.1) % e;
    var t := (-c.1) / e;
    assert -c.1 == t * e + k;
    CoefficientAlgebra(c.0, c.1, e, phi, t, k);
    ModOfMultiple(c.0 - t * phi, e);
    if k == 0 {
      ModUnique(1, 0, 1, e);
      assert false;
    }
  }

  lemma EqualProductsBound(e: int, d: int, k: int, phi: int)
    requires e >= 2 && phi >= 1 && 1 <= k < e && e * d == k * phi + 1
    ensures 1 <= d <= phi
    ensures phi >= 2 ==> d < phi
    ensures phi == 1 ==> d == 1
  {
    assert e * d >= 2;
    if d < 1 {
      assert false;
    }
    assert k * phi <= (e - 1) * phi;
    assert e * d <= e * phi - phi + 1;
    if d > phi {
      assert false;
    }
    if phi >= 2 && d == phi {
      assert false;
    }
  }

  /**
    Under the documented precondition gcd(e, φ) = 1, the search stops at some
    1 <= k < e, e*d == k*φ + 1, so d is an inverse of e modulo φ, lies in
    [1, φ] (below φ once φ > 1), and no smaller positive value is an inverse.
  */
  lemma {:induction false} PrivateExponentIsLeastInverse(phi: nat, e: nat)
    requires phi >= 1 && e >= 2 && Gcd(e, phi) == 1
    ensures 1 <= LeastCoefficient(phi, e) < e
    ensures e * PrivateExponent(phi, e) == LeastCoefficient(phi, e) * phi + 1
    ensures IsModularInverse(PrivateExponent(phi, e), e, phi)
    ensures 1 <= PrivateExponent(phi, e) <= phi
    ensures phi >= 2 ==> PrivateExponent(phi, e) < phi
    ensures forall d' :: 1 <= d' < PrivateExponent(phi, e) ==> !IsModularInverse(d', e, phi)
  {
    SearchSucceedsIffCoprime(phi, e);
    var k := LeastCoefficient(phi, e);
    var d := PrivateExponent(phi, e);
    QuotientIsInverse(phi, e, k, k * phi + 1, d);
    NoSmallerInverse(phi, e, d);
  }

  /** The quotient `dvide` returns once e divides k*φ + 1 is an inverse of e in [1, φ]. */
  lemma QuotientIsInverse(phi: int, e: int, k: int, x: int, d: int)
    requires phi >= 1 && e >= 2 && 1 <= k < e && x == k * phi + 1 && x % e == 0 && d == x / e
    ensures e * d == k * phi + 1 && IsModularInverse(d, e, phi)
    ensures 1 <= d <= phi && (phi >= 2 ==> d < phi)
  {
    assert x == d * e + x % e;
    ModAddMultiple(1, k, phi);
    EqualProductsBound(e, d, k, phi);
  }

  /** An inverse of e modulo φ is unique in [0, φ): the key is the only one below φ. */
  lemma InverseUnique(phi: int, e: int, d: int, d': int)
    requires phi >= 2 && 0 <= d < phi && 0 <= d' < phi
    requires IsModularInverse(d, e, phi) && IsModularInverse(d', e, phi)
    ensures d == d'
  {
    ModUnique(1, 0, 1, phi);
    var a, b := (e * d) / phi, (e * d') / phi;
    assert e * d == a * phi + 1;
    assert e * d' == b * phi + 1;
    InverseAlgebra(e, d, d', a, b, phi);
    SmallMultipleIsZero(d' * a - d * b, phi);
  }

  /** An inverse in [1, φ] (below φ once φ > 1) is the least positive one. */
  lemma NoSmallerInverse(phi: int, e: int, d: int)
    requires phi >= 1 && 1 <= d <= phi && (phi >= 2 ==> d < phi)
    requires IsModularInverse(d, e, phi)
    ensures forall d' :: 1 <= d' < d ==> !IsModularInverse(d', e, phi)
  {
    forall d' | 1 <= d' < d
      ensures !IsModularInverse(d', e, phi)
    {
      if IsModularInverse(d', e, phi) {
        InverseUnique(phi, e, d, d');
        assert false;
      }
    }
  }

  /** d ≡ d'·(e·d) == d·(e·d') ≡ d' when both products leave remainder 1. */
  lemma InverseAlgebra(e: int, d: int, d': int, a: int, b: int, phi: int)
    requires e * d == a * phi + 1 && e * d' == b * phi + 1
    ensures d - d' == (d' * a - d * b) * phi
  {
    assert d' * (e * d) == d' * (a * phi) + d';
    assert d * (e * d') == d * (b * phi) + d;
    assert d' * (e * d) == d * (e * d');
  }

  // ---------------------------------------------------------------------
  // The search, as the source runs it
  // ---------------------------------------------------------------------

  /**
    PrivateKey's do-while loop: compute k*φ + 1, and stop with its quotient
    by e when the remainder is zero, otherwise try k + 1. The doc comment
    requires gcd(e, φ) = 1, which is what makes the loop stop.
  */
  method PrivateKey(phi: nat, generator: nat) returns (privateKey: nat)
    requires phi >= 1 && generator >= 2 && Gcd(generator, phi) == 1
    ensures privateKey == PrivateExponent(phi, generator)
    ensures IsModularInverse(privateKey, generator, phi)
    ensures 1 <= privateKey <= phi
  {
    SearchSucceedsIffCoprime(phi, generator);
    PrivateExponentIsLeastInverse(phi, generator);
    var coefficientNumber: nat := 1;
    var privateKeyResult: nat := 0;
    var condition := true;
    while condition
      invariant 1 <= coefficientNumber <= LeastCoefficient(phi, generator)
      invariant CoefficientFrom(phi, generator, coefficientNumber) == LeastCoefficient(phi, generator)
      invariant !condition ==> privateKeyResult == PrivateExponent(phi, generator)
      decreases generator - coefficientNumber, condition
    {
      privateKeyResult := coefficientNumber * phi + 1;
      var privateKeyModResult := privateKeyResult % generator;
      if privateKeyModResult == 0 {
        condition := false;
        privateKeyResult := privateKeyResult / generator;
      } else {
        coefficientNumber := coefficientNumber + 1;
      }
    }
    privateKey := privateKeyResult;
  }

  /**
    The same search with the bound that the periodicity of k*φ + 1 modulo e
    justifies: it tries k = 1 .. e-1 and reports None when no inverse exists,
    instead of looping forever.
  */
  method PrivateKeyChecked(phi: nat, generator: nat) returns (privateKey: Option<nat>)
    requires phi >= 1 && generator >= 2
    ensures privateKey.Some? <==> Gcd(generator, phi) == 1
    ensures privateKey.Some? ==> privateKey.value == PrivateExponent(phi, generator)
  {
    SearchSucceedsIffCoprime(phi, generator);
    var coefficientNumber: nat := 1;
    while coefficientNumber < generator
      invariant 1 <= coefficientNumber <= LeastCoefficient(phi, generator)
      invariant CoefficientFrom(phi, generator, coefficientNumber) == LeastCoefficient(phi, generator)
      decreases generator - coefficientNumber
    {
      var privateKeyResult := coefficientNumber * phi + 1;
      if privateKeyResult % generator == 0 {
        return Some(privateKeyResult / generator);
      }
      coefficientNumber := coefficientNumber + 1;
    }
    privateKey := None;
  }
}
