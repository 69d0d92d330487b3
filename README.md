# Textbook RSA over text, modelled in Dafny

This project models the core of `RSA.cpp`. The program reads two primes p and q, a
public exponent e (called the "generator"), a text and a seed. It derives
the private exponent, encrypts the text one character at a time and decrypts it
again. Encryption and decryption are the unpadded RSAEP and RSADP primitives of
sections 5.1.1 and 5.1.2 of RFC 8017, without the range check of their step 1
(0 ≤ m < N): the program reduces any integer code modulo N, negative codes
included, instead of rejecting it. The private exponent is an inverse of e
modulo φ(N) = (p-1)(q-1). Section 3.2 of RFC 8017 uses λ(N) there instead.

The modules follow the program's parts:

- `NumberTheory` (`number_theory.dfy`) holds the mathematics the proofs need.
  - It defines powers, the Euclidean remainder, Euclid's gcd with a Bezout pair, and primes.
  - It proves Euclid's lemma, the binomial theorem and Fermat's little theorem.
  - It proves the RSA exponent identity m^(k·φ+1) ≡ m (mod pq) for distinct primes.
- `KeyDeriver` (`key_deriver.dfy`) models `EulerPhi` and `PrivateKey`.
  - `EulerPhi` decrements its two reference arguments in place. The model returns the decremented values as extra results. This form cannot express an aliased call such as `EulerPhi(x, x)`, which in C++ would decrement x twice and return (x-2)². The only call site (RSA.cpp:349) passes two distinct objects.
  - `PrivateKey` is the do-while search for the least k with e | k·φ+1.
- `Codec` (`codec.dfy`) models `ConvertTextToNumbers` and `ConvertNumbersToText`.
  - Text is a sequence of bytes.
  - The model takes `char` to be a signed 8-bit type, as on x86 and with MSVC. Bytes 128..255 then become the codes -128..-1.
  - Decoding keeps the low 8 bits of the absolute value. `mpz_get_ui` drops the sign and keeps the low bits that fit an `unsigned long`, then the cast to `char` keeps 8. Since 256 divides both 2^32 and 2^64, the width of `unsigned long` does not change the byte.
- `Cipher` (`cipher.dfy`) models `Encrypt` and `Decrypt` as loops of `mpz_powm`.
  - `mpz_powm` is the mathematical b^e mod N with a non-negative remainder.
  - A square-and-multiply `ModPow` computes it and is proved against that definition.
- `Pipeline` (`pipeline.dfy`) models `_main_` and the arithmetic part of `_match_ini_items_`.
  - The plaintext is text ++ seed.
  - N = p·q is computed before `EulerPhi` decrements p and q.
  - Then come the private key and encode → encrypt → decrypt → decode.
  - It also holds the worked example p = 61, q = 53, e = 17 and the behaviour on bytes ≥ 128.
- `Wrappers` (`wrappers.dfy`) holds an `Option` type for the bounded key search.

GMP integers are Dafny `int`. `multiply`, `modulus` and `dvide` from `algebra.h` are
taken as the exact product, remainder and quotient of positive operands.

## Model

| member | source | states |
|---|---|---|
| KeyDeriver.EulerPhi | RSA.cpp:21-33 | both reference arguments come back decremented by one; the result is (p-1)(q-1) and is at least 1 when both inputs are at least 2 |
| KeyDeriver.CoefficientFrom | RSA.cpp:61-76 | the search from k stops at a value r with k ≤ r ≤ e; if r < e, then e divides r·φ+1; no j in [k, r) has that property |
| KeyDeriver.SearchSucceedsIffCoprime | RSA.cpp:47 | the least coefficient found is below e exactly when gcd(e, φ) = 1, so the documented precondition is what makes the loop stop |
| KeyDeriver.CoprimeGivesCoefficient | RSA.cpp:47 | when gcd(e, φ) = 1 there is a k in [1, e) with e dividing k·φ+1, built from a Bezout pair |
| KeyDeriver.CoefficientGivesCoprime | RSA.cpp:64-66 | if e divides k·φ+1 for some k then gcd(e, φ) = 1 |
| KeyDeriver.PrivateExponentIsLeastInverse | RSA.cpp:54-79 | with gcd(e, φ) = 1: 1 ≤ k < e, e·d = k·φ+1, e·d ≡ 1 (mod φ), 1 ≤ d ≤ φ (d < φ when φ ≥ 2), and no smaller positive d' is an inverse of e modulo φ |
| KeyDeriver.QuotientIsInverse | RSA.cpp:64-69 | once e divides k·φ+1 with 1 ≤ k < e, the quotient d satisfies e·d = k·φ+1, is an inverse of e modulo φ and lies in [1, φ], below φ once φ ≥ 2 |
| KeyDeriver.InverseUnique | RSA.cpp:69 | two inverses of e modulo φ ≥ 2 that lie in [0, φ) are equal |
| KeyDeriver.NoSmallerInverse | RSA.cpp:69 | an inverse in [1, φ], below φ once φ ≥ 2, is the least positive inverse |
| KeyDeriver.EqualProductsBound | RSA.cpp:69 | if e·d = k·φ+1 with 1 ≤ k < e, then the quotient d lies in [1, φ] |
| KeyDeriver.PrivateKey | RSA.cpp:52-79 | the do-while loop returns the private exponent (k·φ+1)/e for the least k, which is a modular inverse of e in [1, φ] |
| KeyDeriver.PrivateKeyChecked | RSA.cpp:61-76 | the same search cut off at k = e returns a key exactly when gcd(e, φ) = 1, and then it is the key `PrivateKey` returns |
| Codec.Encode | RSA.cpp:104-107 | one code per character, in order; code i is the signed `char` value of byte i, lies in [-128, 128), and is non-negative exactly for bytes below 128 |
| Codec.Decode | RSA.cpp:133-136 | one byte per number, in order; byte i is the low 8 bits of the low `unsigned long` bits of abs(numbers[i]) |
| Codec.LowByteAnyULongWidth | RSA.cpp:135 | the decoded byte is abs(n) mod 256 whether `unsigned long` has 32 or 64 bits |
| Codec.ConvertTextToNumbers | RSA.cpp:97-110 | the push_back loop returns Encode(text) |
| Codec.ConvertNumbersToText | RSA.cpp:127-138 | the `+=` loop returns Decode(numbers) |
| Codec.LowByteOfSmall | RSA.cpp:135 | a number in [0, 256) decodes to itself |
| Codec.DecodeEncodeAscii | RSA.cpp:133-136 | decoding the encoding of a 7-bit text gives the text back |
| Codec.EncodeDecodeAsciiCodes | RSA.cpp:104-107 | encoding the decoding of codes in [0, 128) gives the codes back |
| Codec.SignedCodecExample200 | RSA.cpp:104-107 | without encryption, byte 200 encodes to -56, which decodes to byte 56 |
| Codec.EncodeAppend | RSA.cpp:345 | encoding text ++ seed is the encoding of text followed by the encoding of seed |
| Codec.EncodeUnsigned | RSA.cpp:104-107 | the corrected encoding: one code per byte, equal to the byte's unsigned value |
| Codec.DecodeEncodeUnsigned | RSA.cpp:133-136 | decoding the unsigned encoding gives back every text |
| Codec.EncodingsAgreeIffAscii | RSA.cpp:106 | the signed and unsigned encodings agree exactly on 7-bit text |
| Cipher.ModPow | RSA.cpp:168 | square-and-multiply returns base^exponent mod N, in [0, N), also for negative bases |
| Cipher.PowModAll | RSA.cpp:165-170 | one output per input, in order; output i is input[i]^exp mod N and lies in [0, N) |
| Cipher.Encrypt | RSA.cpp:158-171 | the loop returns input[i]^e mod N position by position |
| Cipher.Decrypt | RSA.cpp:192-204 | the loop returns input[i]^d mod N position by position |
| Cipher.PowModAllAppend | RSA.cpp:165-170 | encrypting a concatenation is the concatenation of the encryptions, so no position affects another |
| Cipher.PowModAllPermutation | RSA.cpp:165-170 | inputs that are permutations of each other give outputs that are permutations of each other |
| Cipher.DecryptInvertsEncrypt | RSA.cpp:180-181 | for distinct primes, gcd(e, φ) = 1, d from the search and 0 ≤ m < N, decrypting m^e mod N gives m |
| Cipher.DecryptEncryptRoundTrip | RSA.cpp:307-313 | under the same conditions, `Decrypt(Encrypt(ms))` is ms for every sequence of codes in [0, N) |
| NumberTheory.RsaExponent | RSA.cpp:180-181 | for distinct primes p, q and 0 ≤ m < pq, m^(k(p-1)(q-1)+1) mod pq = m |
| Pipeline.RunMain | RSA.cpp:301-316 | `_main_` produces ciphertext Encrypt(Encode(text)) and recovered text Decode(Decrypt(Encrypt(Encode(text)))), both as long as the text |
| Pipeline.MatchIniItems | RSA.cpp:341-364 | N is the product of the primes as loaded; the key is the search result for (p-1)(q-1); the text is text ++ seed; a 7-bit text is recovered when p, q are distinct primes and N ≥ 128 |
| Pipeline.AsciiTextRecovered | RSA.cpp:307-316 | with distinct primes, gcd(e, φ) = 1, the derived key and N ≥ 128, every 7-bit text comes back unchanged |
| Pipeline.TextbookExample | RSA.cpp:341-350 | p = 61, q = 53, e = 17: N = 3233, φ = 3120, k = 15, d = 2753, 65 encrypts to 2790 and decrypts to 65 |
| Pipeline.ExampleKeyIsPrime | RSA.cpp:341-350 | 61 and 53, the primes of the worked example above, are prime, as the round-trip lemmas require of it |
| Pipeline.CodeDecryptsToResidue | RSA.cpp:198-202 | for distinct primes, gcd(e, φ) = 1 and the derived key, every code m, negative ones included, decrypts to its residue m mod N |
| Pipeline.NegativeCodeDecrypts | RSA.cpp:198-202 | a negative code m in [-N, 0) decrypts to N + m, not to m |
| Pipeline.SignedByteRoundTrip | RSA.cpp:307-316 | as written, a byte b ≥ 128 comes back as the low 8 bits of (b - 256) mod N, which is N + b - 256 when N ≥ 128 |
| Pipeline.OddModulusChangesLowByte | RSA.cpp:135 | for odd N ≥ 128, the low 8 bits of N + b - 256 differ from b |
| Pipeline.NonAsciiByteNotRecovered | RSA.cpp:104-107 | as written, for every N that is a product of two distinct odd primes, no byte ≥ 128 survives the round trip; when N ≥ 128 it comes back as the low 8 bits of N + b - 256 |
| Pipeline.ResidueChangesLowByte | RSA.cpp:135 | for odd N, the low 8 bits of (b - 256) mod N differ from b ≥ 128: below N = 128 the residue is smaller than b, and from N = 128 on the case above applies |
| Pipeline.CorrectedPipelineRecoversText | RSA.cpp:307-316 | with unsigned codes and N ≥ 256, every byte string is recovered |

## Left out

- `PrimeCalculator.cpp` is not part of this model. It uses a GMP random generator seeded from the clock, the probabilistic `mpz_probab_prime_p`, file appends and console prompts.
- INI persistence (`ReturnINI`, `ReadINI`, `WriteINI`, RSA.cpp:266,293,335) is file I/O from `configfile.h`, which is not part of this model. The primes, generator, seed and text are parameters instead.
- `_add_`'s decimal and hexadecimal rendering of the ciphertext (RSA.cpp:262-299) is not modelled; it only formats output.
- Terminal output (`WriteTerminal` and the `std::cout` block at RSA.cpp:352-361) is left out. That block runs after `EulerPhi`, so it prints p-1 and q-1 under the heading of the primes. `KeyDeriver.EulerPhi` states the decrement.
- The `catch` / `OwnErr()` paths are left out. `OwnErr()` prints the message and calls `exit(EXIT_FAILURE)` (Header Files/ownerr.h:17, 26), so the `return` statements after it are never reached. The paths are reached on allocation failure and, in `_match_ini_items_` (RSA.cpp:338-340, 366), when an INI value is missing or is not a number, so that the `mpz_class` string constructor throws. Both cases belong to the INI parsing that is left out above.
- `KeyDeriver.PrivateKey` requires φ ≥ 1, e ≥ 2 and gcd(e, φ) = 1, the precondition documented at RSA.cpp:47; without it the source loops forever. `KeyDeriver.PrivateKeyChecked` is the bounded variant that reports failure instead.
- `Pipeline.MatchIniItems` requires primes ≥ 2, e ≥ 2 and gcd(e, φ) = 1 for the same reason. Values read from the INI file are not validated by the source.
- `Cipher.Encrypt`, `Cipher.Decrypt` and `Cipher.ModPow` require N > 0. `mpz_powm` divides by zero on N = 0, and negative exponents are excluded because the exponents are `nat`.
- The pipeline keeps the signed codec of the source; the unsigned codec appears only in the corrected members under Findings.
- The round-trip lemmas assume p and q are prime and distinct. The source checks neither, PrimeCalculator.cpp's primality test is probabilistic, and with p = q the value (p-1)² is not φ(p²).
- Codec.Encode assumes a signed 8-bit `char` (x86, MSVC). Where `char` is unsigned by default (ARM and PowerPC Linux), RSA.cpp:106 yields 0..255, which is `Codec.EncodeUnsigned`, and the finding below does not arise.

## Findings

| source | as written | input that shows it | evidently intended | confidence | as-written member | corrected member |
|---|---|---|---|---|---|---|
| RSA.cpp:104-107 | where `char` is a signed 8-bit type (x86, MSVC), each `char` of the text is widened through it, so bytes 128..255 (every byte of a UTF-8 encoded non-ASCII letter) become negative codes; `mpz_powm` reduces each to code mod N, which is N + code once N ≥ 128, and the decoded low byte differs from the original for every N that is a product of two distinct odd primes (below N = 128 the residue is smaller than the byte) | p = 61, q = 53, e = 17, the single byte 197 (0xC5, first byte of "ş" in UTF-8): code -59, decrypted value 3174, decoded byte 102 | codes are the unsigned byte values 0..255, so any text round-trips when N ≥ 256 | not executed | Pipeline.NonAsciiByteNotRecovered | Pipeline.CorrectedPipelineRecoversText |
