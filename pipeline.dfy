/**
  The orchestration of RSA.cpp without its file and terminal I/O:
  _match_ini_items_ appends the seed to the text, computes the public modulus
  N = p*q BEFORE EulerPhi decrements p and q, derives the private exponent,
  and hands over to _main_, which encodes, encrypts, decrypts and decodes.
*/
module Pipeline {
  import opened NumberTheory
  import opened Codec
  import KeyDeriver
  import Cipher

  /** What _main_ hands to the INI file and the terminal as the decrypted text. */
  function Recovered(text: seq<byte>, generator: nat, publicKey: int, privateKey: nat): seq<byte>
    requires publicKey > 0
  {
    Decode(Cipher.PowModAll(Cipher.PowModAll(Encode(text), generator, publicKey), privateKey, publicKey))
  }

  /** _main_: text -> codes -> ciphertext -> codes -> text. */
  method RunMain(text: seq<byte>, publicGenerator: nat, publicKey: int, privateKey: nat)
    returns (encryptedMsg: seq<int>, convertedDecryptedMessage: seq<byte>)
    requires publicKey > 0
    ensures |encryptedMsg| == |text| && |convertedDecryptedMessage| == |text|
    ensures encryptedMsg == Cipher.PowModAll(Encode(text), publicGenerator, publicKey)
    ensures convertedDecryptedMessage == Recovered(text, publicGenerator, publicKey, privateKey)
  {
    var numbers := ConvertTextToNumbers(text);
    encryptedMsg := Cipher.Encrypt(numbers, publicGenerator, publicKey);
    var decryptedMessage := Cipher.Decrypt(encryptedMsg, privateKey, publicKey);
    convertedDecryptedMessage := ConvertNumbersToText(decryptedMessage);
  }

  /**
    Textbook RSA on a 7-bit text: with distinct primes, gcd(e, φ) = 1, the
    private exponent of the search and a modulus above every code, the
    decrypted text is the text.
  */
  lemma AsciiTextRecovered(p: nat, q: nat, n: int, e: nat, d: nat, text: seq<byte>)
    requires IsPrime(p) && IsPrime(q) && p != q && n == p * q && n >= 128
    requires e >= 2 && Gcd(e, KeyDeriver.Totient(p, q)) == 1
    requires d == KeyDeriver.PrivateExponent(KeyDeriver.Totient(p, q), e)
    requires IsAscii(text)
    ensures Recovered(text, e, n, d) == text
  {
    var codes := Encode(text);
    Cipher.DecryptEncryptRoundTrip(p, q, n, e, d, codes);
    DecodeEncodeAscii(text);
  }

  /**
    _match_ini_items_ after the INI values are read: plaintext = text ++ seed,
    N = p*q from the primes as loaded, then EulerPhi(p, q) (which decrements
    p and q), PrivateKey(φ, e), and _main_.
  */
  method MatchIniItems(secretPrimeOne: int, secretPrimeTwo: int, publicGenerator: nat, seed: seq<byte>, text: seq<byte>)
    returns (publicKey: int, privateKey: nat, encryptedMsg: seq<int>, convertedDecryptedMessage: seq<byte>)
    requires secretPrimeOne >= 2 && secretPrimeTwo >= 2 && publicGenerator >= 2
    requires Gcd(publicGenerator, KeyDeriver.Totient(secretPrimeOne, secretPrimeTwo)) == 1
    ensures publicKey == secretPrimeOne * secretPrimeTwo && publicKey > 0
    ensures privateKey == KeyDeriver.PrivateExponent(KeyDeriver.Totient(secretPrimeOne, secretPrimeTwo), publicGenerator)
    ensures encryptedMsg == Cipher.PowModAll(Encode(text + seed), publicGenerator, publicKey)
    ensures convertedDecryptedMessage == Recovered(text + seed, publicGenerator, publicKey, privateKey)
    ensures IsPrime(secretPrimeOne) && IsPrime(secretPrimeTwo) && secretPrimeOne != secretPrimeTwo
            && publicKey >= 128 && IsAscii(text + seed)
            ==> convertedDecryptedMessage == text + seed
  {
    var primeOne, primeTwo := secretPrimeOne, secretPrimeTwo;
    var plaintext := text + seed;
    publicKey := primeOne * primeTwo;
    MulAtLeast(primeOne, primeTwo);
    var phiResult;
    phiResult, primeOne, primeTwo := KeyDeriver.EulerPhi(primeOne, primeTwo);
    privateKey := KeyDeriver.PrivateKey(phiResult, publicGenerator);
    encryptedMsg, convertedDecryptedMessage := RunMain(plaintext, publicGenerator, publicKey, privateKey);
    if IsPrime(secretPrimeOne) && IsPrime(secretPrimeTwo) && secretPrimeOne != secretPrimeTwo
       && publicKey >= 128 && IsAscii(plaintext) {
      AsciiTextRecovered(secretPrimeOne, secretPrimeTwo, publicKey, publicGenerator, privateKey, plaintext);
    }
  }

  // ---------------------------------------------------------------------
  // The worked example p = 61, q = 53, e = 17
  // ---------------------------------------------------------------------

  lemma Prime61()
    ensures IsPrime(61)
  {
    assert NoDivisorIn(61, 57, 61);
    assert NoDivisorIn(61, 53, 61);
    assert NoDivisorIn(61, 49, 61);
    assert NoDivisorIn(61, 45, 61);
    assert NoDivisorIn(61, 41, 61);
    assert NoDivisorIn(61, 37, 61);
    assert NoDivisorIn(61, 33, 61);
    assert NoDivisorIn(61, 29, 61);
    assert NoDivisorIn(61, 25, 61);
    assert NoDivisorIn(61, 21, 61);
    assert NoDivisorIn(61, 17, 61);
    assert NoDivisorIn(61, 13, 61);
    assert NoDivisorIn(61, 9, 61);
    assert NoDivisorIn(61, 5, 61);
    assert NoDivisorIn(61, 2, 61);
    PrimeByTrialDivision(61);
  }

  lemma Prime53()
    ensures IsPrime(53)
  {
    assert NoDivisorIn(53, 49, 53);
    assert NoDivisorIn(53, 45, 53);
    assert NoDivisorIn(53, 41, 53);
    assert NoDivisorIn(53, 37, 53);
    assert NoDivisorIn(53, 33, 53);
    assert NoDivisorIn(53, 29, 53);
    assert NoDivisorIn(53, 25, 53);
    assert NoDivisorIn(53, 21, 53);
    assert NoDivisorIn(53, 17, 53);
    assert NoDivisorIn(53, 13, 53);
    assert NoDivisorIn(53, 9, 53);
    assert NoDivisorIn(53, 5, 53);
    assert NoDivisorIn(53, 2, 53);
    PrimeByTrialDivision(53);
  }

  lemma ExampleKeyIsPrime()
    ensures IsPrime(61) && IsPrime(53)
  {
    Prime61();
    Prime53();
  }

  /**
    N = 3233, φ = 3120, the search stops at k = 15 and gives d = 2753;
    65 encrypts to 2790, and decrypting that gives 65 again.
  */
  lemma TextbookExample()
    ensures 61 * 53 == 3233 && KeyDeriver.Totient(61, 53) == 3120
    ensures KeyDeriver.LeastCoefficient(3120, 17) == 15
    ensures KeyDeriver.PrivateExponent(3120, 17) == 2753
    ensures Pow(65, 17) % 3233 == 2790
    ensures Pow(Pow(65, 17) % 3233, 2753) % 3233 == 65
  {
    ExampleKeyIsPrime();
    assert Gcd(17, 3120) == 1;
    assert KeyDeriver.CoefficientFrom(3120, 17, 15) == 15;
    assert KeyDeriver.CoefficientFrom(3120, 17, 10) == 15;
    assert KeyDeriver.CoefficientFrom(3120, 17, 5) == 15;
    assert KeyDeriver.CoefficientFrom(3120, 17, 1) == 15;
    assert Pow(65, 1) == 65;
    assert Pow(65, 2) == 4225;
    assert Pow(65, 3) == 274625;
    assert Pow(65, 4) == 17850625;
    assert Pow(65, 5) == 1160290625;
    assert Pow(65, 6) == 75418890625;
    assert Pow(65, 7) == 4902227890625;
    assert Pow(65, 8) == 318644812890625;
    assert Pow(65, 9) == 20711912837890625;
    assert Pow(65, 10) == 1346274334462890625;
    assert Pow(65, 11) == 87507831740087890625;
    assert Pow(65, 12) == 5688009063105712890625;
    assert Pow(65, 13) == 369720589101871337890625;
    assert Pow(65, 14) == 24031838291621636962890625;
    assert Pow(65, 15) == 1562069488955406402587890625;
    assert Pow(65, 16) == 101534516782101416168212890625;
    assert Pow(65, 17) == 6599743590836592050933837890625;
    Cipher.DecryptInvertsEncrypt(61, 53, 3233, 17, 2753, 65);
  }

  // ---------------------------------------------------------------------
  // Text outside 7-bit ASCII
  // ---------------------------------------------------------------------

  /** An odd modulus shifts the low 8 bits of a wrapped-around code. */
  lemma OddModulusChangesLowByte(n: int, b: byte)
    requires n >= 128 && n % 2 == 1 && b >= 128
    ensures LowByte(n + b as int - 256) != b
  {
    var x := n + b as int - 256;
    var k := n / 256;
    LowByteIsMod256(x);
    ModSub(x, b as int, 256);
    ModAddMultiple(n, -1, 256);
    ModOfMultiple(k * 128, 2);
    ModAddMultiple(n % 256, k * 128, 2);
  }

  /** Any code m, negative ones included, decrypts to its Euclidean residue m mod N. */
  lemma CodeDecryptsToResidue(p: nat, q: nat, n: int, e: nat, d: nat, m: int)
    requires IsPrime(p) && IsPrime(q) && p != q && n == p * q
    requires e >= 2 && Gcd(e, KeyDeriver.Totient(p, q)) == 1
    requires d == KeyDeriver.PrivateExponent(KeyDeriver.Totient(p, q), e)
    ensures n > 0
    ensures Pow(Pow(m, e) % n, d) % n == m % n
  {
    MulAtLeast(p, q);
    PowModBase(m, e, n);
    Cipher.DecryptInvertsEncrypt(p, q, n, e, d, m % n);
  }

  /** A negative code m in [-N, 0) decrypts to N + m, not to m. */
  lemma NegativeCodeDecrypts(p: nat, q: nat, n: int, e: nat, d: nat, m: int)
    requires IsPrime(p) && IsPrime(q) && p != q && n == p * q
    requires e >= 2 && Gcd(e, KeyDeriver.Totient(p, q)) == 1
    requires d == KeyDeriver.PrivateExponent(KeyDeriver.Totient(p, q), e)
    requires -n <= m < 0
    ensures Pow(Pow(m, e) % n, d) % n == n + m
  {
    CodeDecryptsToResidue(p, q, n, e, d, m);
    ModUnique(m, -1, n + m, n);
  }

  /**
    The round trip of one byte b >= 128 under the signed codec: it comes back
    as the low byte of (b - 256) mod N, which is N + b - 256 once N >= 128.
  */
  lemma SignedByteRoundTrip(p: nat, q: nat, n: int, e: nat, d: nat, b: byte)
    requires IsPrime(p) && IsPrime(q) && p != q && n == p * q
    requires e >= 2 && Gcd(e, KeyDeriver.Totient(p, q)) == 1
    requires d == KeyDeriver.PrivateExponent(KeyDeriver.Totient(p, q), e)
    requires b >= 128
    ensures n > 0
    ensures Recovered([b], e, n, d) == [LowByte((b as int - 256) % n)]
    ensures n >= 128 ==> Recovered([b], e, n, d) == [LowByte(n + b as int - 256)]
  {
    var m := b as int - 256;
    CodeDecryptsToResidue(p, q, n, e, d, m);
    var codes := Encode([b]);
    assert codes == [m];
    var cipher := Cipher.PowModAll(codes, e, n);
    assert cipher == [Pow(m, e) % n];
    var plain := Cipher.PowModAll(cipher, d, n);
    assert plain == [m % n];
    assert Decode(plain) == [LowByte(m % n)];
    if n >= 128 {
      ModUnique(m, -1, n + m, n);
    }
  }

  /**
    As written, a byte b >= 128 (every byte of a UTF-8 encoded non-ASCII
    letter) is encoded as b - 256 < 0, and mpz_powm reduces it to
    (b - 256) mod N, which decryption returns. Below N = 128 that residue is
    smaller than b and decodes to itself; from N = 128 on it is N + b - 256,
    whose low 8 bits equal b only when 256 divides N, which no product of two
    odd primes does.
  */
  lemma NonAsciiByteNotRecovered(p: nat, q: nat, n: int, e: nat, d: nat, b: byte)
    requires IsPrime(p) && IsPrime(q) && p != q && p % 2 == 1 && q % 2 == 1
    requires n == p * q
    requires e >= 2 && Gcd(e, KeyDeriver.Totient(p, q)) == 1
    requires d == KeyDeriver.PrivateExponent(KeyDeriver.Totient(p, q), e)
    requires b >= 128
    ensures n > 0
    ensures n >= 128 ==> Recovered([b], e, n, d) == [LowByte(n + b as int - 256)]
    ensures Recovered([b], e, n, d) != [b]
  {
    SignedByteRoundTrip(p, q, n, e, d, b);
    var recovered := LowByte((b as int - 256) % n);
    OddProduct(p, q, n);
    ResidueChangesLowByte(n, b);
    assert [recovered][0] != [b][0];
  }

  lemma OddProduct(p: int, q: int, n: int)
    requires p % 2 == 1 && q % 2 == 1 && n == p * q
    ensures n % 2 == 1
  {
    ModMul(p, q, 2);
  }

  /** For odd N, the low byte of (b - 256) mod N is never b itself. */
  lemma ResidueChangesLowByte(n: int, b: byte)
    requires n > 0 && n % 2 == 1 && b >= 128
    ensures LowByte((b as int - 256) % n) != b
  {
    if n >= 128 {
      ModUnique(b as int - 256, -1, n + b as int - 256, n);
      OddModulusChangesLowByte(n, b);
    } else {
      LowByteOfSmall((b as int - 256) % n);
    }
  }

  function RecoveredUnsigned(text: seq<byte>, generator: nat, publicKey: int, privateKey: nat): seq<byte>
    requires publicKey > 0
  {
    Decode(Cipher.PowModAll(Cipher.PowModAll(EncodeUnsigned(text), generator, publicKey), privateKey, publicKey))
  }

  /** With unsigned codes and N > 255, every text is recovered, not only 7-bit text. */
  lemma CorrectedPipelineRecoversText(p: nat, q: nat, n: int, e: nat, d: nat, text: seq<byte>)
    requires IsPrime(p) && IsPrime(q) && p != q && n == p * q && n >= 256
    requires e >= 2 && Gcd(e, KeyDeriver.Totient(p, q)) == 1
    requires d == KeyDeriver.PrivateExponent(KeyDeriver.Totient(p, q), e)
    ensures RecoveredUnsigned(text, e, n, d) == text
  {
    var codes := EncodeUnsigned(text);
    Cipher.DecryptEncryptRoundTrip(p, q, n, e, d, codes);
    DecodeEncodeUnsigned(text);
  }
}
