/**
  The message codec of RSA.cpp. ConvertTextToNumbers turns each byte of a
  std::string into the integer value of its `char`. The model takes `char` to
  be a signed 8-bit type (as on x86 and with MSVC), so bytes 128..255 become
  -128..-1; where `char` is unsigned the codes are EncodeUnsigned below.
  ConvertNumbersToText keeps, of each integer, what mpz_get_ui returns (the
  low bits of its absolute value that fit an unsigned long) cast to `char`
  (the low 8 bits of that).
*/
module Codec {
  import opened NumberTheory

  newtype byte = x: int | 0 <= x < 256

  /**
    2^64: mpz_get_ui keeps the absolute value modulo the width of unsigned
    long, 64 bits on LP64 targets; LowByteAnyULongWidth shows that a 32-bit
    unsigned long gives the same byte.
  */
  const ULongModulus: int := 0x1_0000_0000_0000_0000

  /** static_cast<int>(ch) for a signed 8-bit `char` holding the byte b. */
  function SignedChar(b: byte): int
  {
    if b < 128 then b as int else b as int - 256
  }

  /** static_cast<char>(mpz_get_ui(n)), read back as a byte. */
  function LowByte(n: int): byte
  {
    var magnitude := if n < 0 then -n else n;
    ((magnitude % ULongModulus) % 256) as byte
  }

  /** The codes of a text, position by position. */
  function Encode(text: seq<byte>): (numbers: seq<int>)
    ensures |numbers| == |text|
    ensures forall i :: 0 <= i < |text| ==> numbers[i] == SignedChar(text[i])
    ensures forall i :: 0 <= i < |text| ==> -128 <= numbers[i] < 128
    ensures forall i :: 0 <= i < |text| ==> (numbers[i] >= 0 <==> text[i] < 128)
  {
    if text == [] then [] else Encode(text[..|text| - 1]) + [SignedChar(text[|text| - 1])]
  }

  /** The text of a sequence of codes, position by position. */
  function Decode(numbers: seq<int>): (text: seq<byte>)
    ensures |text| == |numbers|
    ensures forall i :: 0 <= i < |numbers| ==> text[i] == LowByte(numbers[i])
  {
    if numbers == [] then [] else Decode(numbers[..|numbers| - 1]) + [LowByte(numbers[|numbers| - 1])]
  }

  /** The loop of ConvertTextToNumbers: one push_back per character. */
  method ConvertTextToNumbers(text: seq<byte>) returns (numbers: seq<int>)
    ensures numbers == Encode(text)
  {
    numbers := [];
    for i := 0 to |text|
      invariant numbers == Encode(text[..i])
    {
      assert text[..i + 1][..i] == text[..i];
      numbers := numbers + [SignedChar(text[i])];
    }
    assert text[..|text|] == text;
  }

  /** The loop of ConvertNumbersToText: one character appended per number. */
  method ConvertNumbersToText(numbers: seq<int>) returns (text: seq<byte>)
    ensures text == Decode(numbers)
  {
    text := [];
    for i := 0 to |numbers|
      invariant text == Decode(numbers[..i])
    {
      assert numbers[..i + 1][..i] == numbers[..i];
      text := text + [LowByte(numbers[i])];
    }
    assert numbers[..|numbers|] == numbers;
  }

  // ---------------------------------------------------------------------
  // Round trips
  // ---------------------------------------------------------------------

  predicate IsAscii(text: seq<byte>)
  {
    forall i :: 0 <= i < |text| ==> text[i] < 128
  }

  /** The decoded byte is the absolute value modulo 256. */
  lemma LowByteIsMod256(n: int)
    ensures LowByte(n) as int == (if n < 0 then -n else n) % 256
  {
    var magnitude := if n < 0 then -n else n;
    NarrowerModulus(magnitude, 0x100_0000_0000_0000);
  }

  /** With a 32-bit unsigned long (LLP64 targets) the decoded byte is the same. */
  lemma LowByteAnyULongWidth(n: int)
    ensures LowByte(n) as int == ((if n < 0 then -n else n) % 0x1_0000_0000) % 256
  {
    var magnitude := if n < 0 then -n else n;
    LowByteIsMod256(n);
    NarrowerModulus(magnitude, 0x100_0000);
  }

  lemma NarrowerModulus(x: int, c: int)
    requires c >= 1
    ensures (x % (c * 256)) % 256 == x % 256
  {
    var r, t := x % (c * 256), x / (c * 256);
    assert x == t * (c * 256) + r;
    assert x == r + (t * c) * 256;
    ModAddMultiple(r, t * c, 256);
  }

  lemma LowByteOfSmall(n: int)
    requires 0 <= n < 256
    ensures LowByte(n) as int == n
  {
    assert n % ULongModulus == n;
  }

  /** Decoding the codes of a 7-bit text gives the text back. */
  lemma DecodeEncodeAscii(text: seq<byte>)
    requires IsAscii(text)
    ensures Decode(Encode(text)) == text
  {
    var r := Decode(Encode(text));
    forall i | 0 <= i < |text|
      ensures r[i] == text[i]
    {
      LowByteOfSmall(text[i] as int);
    }
  }

  /** Encoding the text of codes in 0..127 gives the codes back. */
  lemma EncodeDecodeAsciiCodes(numbers: seq<int>)
    requires forall i :: 0 <= i < |numbers| ==> 0 <= numbers[i] < 128
    ensures Encode(Decode(numbers)) == numbers
  {
    var r := Encode(Decode(numbers));
    forall i | 0 <= i < |numbers|
      ensures r[i] == numbers[i]
    {
      LowByteOfSmall(numbers[i]);
    }
  }

  /** Without encryption, byte 200 (a UTF-8 lead byte) comes back from the codec as 56. */
  lemma SignedCodecExample200()
    ensures Decode(Encode([200 as byte])) == [56 as byte]
  {
    assert Encode([200 as byte])[0] == -56;
    LowByteOfSmall(56);
  }

  /** Appending a seed to the text appends its codes to the codes. */
  lemma {:induction false} EncodeAppend(text: seq<byte>, seed: seq<byte>)
    ensures Encode(text + seed) == Encode(text) + Encode(seed)
  {
    var r := Encode(text + seed);
    assert forall i :: 0 <= i < |text| ==> (text + seed)[i] == text[i];
    assert forall i :: |text| <= i < |text| + |seed| ==> (text + seed)[i] == seed[i - |text|];
    assert r == Encode(text) + Encode(seed);
  }

  // ---------------------------------------------------------------------
  // Corrected codec: unsigned character codes
  // ---------------------------------------------------------------------

  /** The codes the conversion evidently intends: static_cast<unsigned char>(ch), 0..255. */
  function EncodeUnsigned(text: seq<byte>): (numbers: seq<int>)
    ensures |numbers| == |text|
    ensures forall i :: 0 <= i < |text| ==> numbers[i] == text[i] as int
  {
    if text == [] then [] else EncodeUnsigned(text[..|text| - 1]) + [text[|text| - 1] as int]
  }

  /** With unsigned codes every text, not only 7-bit text, survives the codec. */
  lemma DecodeEncodeUnsigned(text: seq<byte>)
    ensures Decode(EncodeUnsigned(text)) == text
  {
    var r := Decode(EncodeUnsigned(text));
    forall i | 0 <= i < |text|
      ensures r[i] == text[i]
    {
      LowByteOfSmall(text[i] as int);
    }
  }

  /** The signed and unsigned codes agree exactly on 7-bit text. */
  lemma EncodingsAgreeIffAscii(text: seq<byte>)
    ensures Encode(text) == EncodeUnsigned(text) <==> IsAscii(text)
  {
    if Encode(text) == EncodeUnsigned(text) {
      forall i | 0 <= i < |text|
        ensures text[i] < 128
      {
        assert Encode(text)[i] == EncodeUnsigned(text)[i];
      }
    }
  }
}
