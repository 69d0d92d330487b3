/**
  Encryption and decryption of RSA.cpp: each element m of the input becomes
  m^exp mod N through mpz_powm, independently of its neighbours (textbook
  RSA applied per character, the RSAEP/RSADP primitives of sections 5.1.1 and
  5.1.2 of RFC 8017 without their range checks).
*/
module Cipher {
  import opened NumberTheory
  import KeyDeriver

  /**
    mpz_powm(rop, base, exp, mod) for exp >= 0 and mod > 0: square-and-multiply
    over the bits of the exponent. The result is the Euclidean remainder, so
    a negative base is reduced into [0, mod) as GMP does.
  */
  method ModPow(base: int, exponent: nat, modulus: int) returns (result: int)
    requires modulus > 0
    ensures result == Pow(base, exponent) % modulus
    ensures 0 <= result < modulus
  {
    var b := base % modulus;
    var e := exponent;
    result := 1 % modulus;
    ModPowStart(base, exponent, modulus);
    while e > 0
      invariant 0 <= b < modulus && 0 <= result < modulus
      invariant (result * Pow(b, e)) % modulus == Pow(base, exponent) % modulus
      decreases e
    {
      ModPowStep(result, b, e, modulus);
      if e % 2 == 1 {
        result := (result * b) % modulus;
      }
      b := (b * b) % modulus;
      e := e / 2;
    }
    assert result * Pow(b, e) == result;
    ModUnique(result, 0, result, modulus);
  }

  lemma ModPowStart(base: int, exponent: nat, n: int)
    requires n > 0
    ensures ((1 % n) * Pow(base % n, exponent)) % n == Pow(base, exponent) % n
  {
    PowModBase(base, exponent, n);
    if n == 1 {
      ModUnique(Pow(base, exponent), Pow(base, exponent), 0, 1);
      ModUnique(0, 0, 0, 1);
    } else {
      ModUnique(1, 0, 1, n);
    }
  }

  /** One round of square-and-multiply keeps result * b^e fixed modulo the modulus. */
  lemma ModPowStep(r: int, b: int, e: nat, n: int)
    requires n > 0 && e > 0
    ensures e % 2 == 1 ==> ((r * b) % n * Pow((b * b) % n, e / 2)) % n == (r * Pow(b, e)) % n
    ensures e % 2 == 0 ==> (r * Pow((b * b) % n, e / 2)) % n == (r * Pow(b, e)) % n
  {
    var h := e / 2;
    PowOfSquare(b, h);
    PowModBase(b * b, h, n);
    var sq := Pow(b * b, h);
    if e % 2 == 1 {
      assert e == 2 * h + 1;
      PowAdd(b, 2 * h, 1);
      assert Pow(b, 1) == b;
      assert r * Pow(b, e) == (r * b) * sq;
      ModMul((r * b) % n, Pow((b * b) % n, h), n);
      ModMul(r * b, sq, n);
      ModOfMod(r * b, n);
    } else {
      assert e == 2 * h;
      ModMul(r, Pow((b * b) % n, h), n);
      ModMul(r, sq, n);
    }
  }

  /** mpz_powm applied to every element, in order. */
  function PowModAll(xs: seq<int>, exp: nat, n: int): (ys: seq<int>)
    requires n > 0
    ensures |ys| == |xs|
    ensures forall i :: 0 <= i < |xs| ==> ys[i] == Pow(xs[i], exp) % n
    ensures forall i :: 0 <= i < |xs| ==> 0 <= ys[i] < n
  {
    if xs == [] then [] else PowModAll(xs[..|xs| - 1], exp, n) + [Pow(xs[|xs| - 1], exp) % n]
  }

  /** Encrypt: each code m becomes m^generator mod publicKey, in order. */
  method Encrypt(message: seq<int>, generator: nat, publicKey: int) returns (encryptedMessage: seq<int>)
    requires publicKey > 0
    ensures encryptedMessage == PowModAll(message, generator, publicKey)
  {
    encryptedMessage := [];
    for i := 0 to |message|
      invariant encryptedMessage == PowModAll(message[..i], generator, publicKey)
    {
      var encrypted := ModPow(message[i], generator, publicKey);
      assert message[..i + 1][..i] == message[..i];
      encryptedMessage := encryptedMessage + [encrypted];
    }
    assert message[..|message|] == message;
  }

  /** Decrypt: each ciphertext c becomes c^privateKey mod publicKey, in order. */
  method Decrypt(encryptedMessage: seq<int>, privateKey: nat, publicKey: int) returns (decryptedMessage: seq<int>)
    requires publicKey > 0
    ensures decryptedMessage == PowModAll(encryptedMessage, privateKey, publicKey)
  {
    decryptedMessage := [];
    for i := 0 to |encryptedMessage|
      invariant decryptedMessage == PowModAll(encryptedMessage[..i], privateKey, publicKey)
    {
      var decrypted := ModPow(encryptedMessage[i], privateKey, publicKey);
      assert encryptedMessage[..i + 1][..i] == encryptedMessage[..i];
      decryptedMessage := decryptedMessage + [decrypted];
    }
    assert encryptedMessage[..|encryptedMessage|] == encryptedMessage;
  }

  // ---------------------------------------------------------------------
  // No interaction between positions
  // ---------------------------------------------------------------------

  lemma PowModAllAppend(xs: seq<int>, ys: seq<int>, exp: nat, n: int)
    requires n > 0
    ensures PowModAll(xs + ys, exp, n) == PowModAll(xs, exp, n) + PowModAll(ys, exp, n)
  {
    var l := PowModAll(xs + ys, exp, n);
    var r := PowModAll(xs, exp, n) + PowModAll(ys, exp, n);
    forall i | 0 <= i < |l|
      ensures l[i] == r[i]
    {
      if i < |xs| {
        assert (xs + ys)[i] == xs[i];
      } else {
        assert (xs + ys)[i] == ys[i - |xs|];
      }
    }
  }

  /**
    Reordering the input reorders the output the same way: messages with the
    same multiset of codes have ciphertexts with the same multiset of values.
  */
  lemma {:induction false} PowModAllPermutation(xs: seq<int>, ys: seq<int>, exp: nat, n: int)
    requires n > 0 && multiset(xs) == multiset(ys)
    ensures multiset(PowModAll(xs, exp, n)) == multiset(PowModAll(ys, exp, n))
    decreases |xs|
  {
    if xs != [] {
      var i := |xs| - 1;
      var x := xs[i];
      assert x in multiset(ys);
      var j :| 0 <= j < |ys| && ys[j] == x;
      var xs', ys' := Without(xs, i), Without(ys, j);
      assert multiset(xs') == multiset(ys') by {
        WithoutMultiset(xs, i);
        WithoutMultiset(ys, j);
      }
      PowModAllPermutation(xs', ys', exp, n);
      PowModAllWithout(xs, i, exp, n);
      PowModAllWithout(ys, j, exp, n);
    } else {
      assert ys == [];
    }
  }

  /** s with its element at position i taken out. */
  function Without(s: seq<int>, i: nat): (r: seq<int>)
    requires i < |s|
    ensures |r| == |s| - 1
  {
    s[..i] + s[i + 1..]
  }

  lemma WithoutMultiset(s: seq<int>, i: nat)
    requires i < |s|
    ensures multiset(Without(s, i)) == multiset(s) - multiset{s[i]}
  {
    assert s == s[..i] + [s[i]] + s[i + 1..];
  }

  lemma PowModAllWithout(s: seq<int>, i: nat, exp: nat, n: int)
    requires n > 0 && i < |s|
    ensures multiset(PowModAll(s, exp, n))
         == multiset(PowModAll(Without(s, i), exp, n)) + multiset{Pow(s[i], exp) % n}
  {
    var a, b := s[..i], s[i + 1..];
    assert s == a + [s[i]] + b;
    PowModAllAppend(a + [s[i]], b, exp, n);
    PowModAllAppend(a, [s[i]], exp, n);
    PowModAllAppend(a, b, exp, n);
    assert PowModAll([s[i]], exp, n) == [Pow(s[i], exp) % n];
  }

  // ---------------------------------------------------------------------
  // Decryption undoes encryption
  // ---------------------------------------------------------------------

  /**
    For distinct primes p, q, a generator e with gcd(e, φ) = 1 and the private
    exponent d that the search finds, decrypting the encryption of any m in
    [0, N), N = p*q, gives m.
  */
  lemma DecryptInvertsEncrypt(p: nat, q: nat, n: int, e: nat, d: nat, m: int)
    requires IsPrime(p) && IsPrime(q) && p != q && n == p * q
    requires e >= 2 && Gcd(e, KeyDeriver.Totient(p, q)) == 1
    requires d == KeyDeriver.PrivateExponent(KeyDeriver.Totient(p, q), e)
    requires 0 <= m < n
    ensures Pow(Pow(m, e) % n, d) % n == m
  {
    var phi: nat := KeyDeriver.Totient(p, q);
    KeyDeriver.PrivateExponentIsLeastInverse(phi, e);
    var k: nat := KeyDeriver.LeastCoefficient(phi, e);
    PowModBase(Pow(m, e), d, n);
    PowMul(m, e, d);
    assert e * d == k * ((p - 1) * (q - 1)) + 1;
    RsaExponent(p, q, m, k);
  }

  /** The sequence form: Decrypt(Encrypt(ms)) == ms for codes in [0, N). */
  lemma DecryptEncryptRoundTrip(p: nat, q: nat, n: int, e: nat, d: nat, ms: seq<int>)
    requires IsPrime(p) && IsPrime(q) && p != q && n == p * q
    requires e >= 2 && Gcd(e, KeyDeriver.Totient(p, q)) == 1
    requires d == KeyDeriver.PrivateExponent(KeyDeriver.Totient(p, q), e)
    requires forall i :: 0 <= i < |ms| ==> 0 <= ms[i] < n
    ensures n > 0
    ensures PowModAll(PowModAll(ms, e, n), d, n) == ms
  {
    MulAtLeast(q, p);
    var c := PowModAll(ms, e, n);
    var r := PowModAll(c, d, n);
    forall i | 0 <= i < |ms|
      ensures r[i] == ms[i]
    {
      DecryptInvertsEncrypt(p, q, n, e, d, ms[i]);
    }
  }
}
