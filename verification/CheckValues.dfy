/**
 The checksums at their published check values, and the polynomials by their exponents. CRC-32 is the one of
 section 8 of RFC 1952; CRC-16 has the polynomial x^16 + x^15 + x^2 + 1 and starts from the seed as it is.
 */
module CheckValues {
  import R = CrcRegister
  import C32 = Crc32Model
  import C16 = Crc16Model
  import opened Checksums

  /** The characters 1 to 9, over which check values are published. */
  const DIGITS: seq<bv8> := [0x31, 0x32, 0x33, 0x34, 0x35, 0x36, 0x37, 0x38, 0x39]

  /** The words that a fold passes through. */
  ghost predicate Passes<T>(step: (T, bv8) -> T, words: seq<T>, data: seq<bv8>) {
    |words| == |data| + 1 && forall i | 0 <= i < |data| :: step(words[i], data[i]) == words[i + 1]
  }

  lemma {:induction false} FoldPasses<T>(step: (T, bv8) -> T, words: seq<T>, data: seq<bv8>)
    requires Passes(step, words, data)
    ensures R.Fold(step, words[0], data) == words[|data|]
  {
    if data != [] {
      FoldPasses(step, words[..|data|], data[..|data| - 1]);
    }
  }

  const WORDS32: seq<bv32> :=
    [0xFFFFFFFF, 0x7C231048, 0xB0ACBB32, 0x77B79C2D, 0x641C1F5C,
     0x340AC5E3, 0xF68D2C9E, 0xAFFC9660, 0x651F2550, 0x340BC6D9]

  lemma Crc32Passes()
    ensures Passes(Update(C32.CRC32), WORDS32, DIGITS)
  {
    forall i | 0 <= i < |DIGITS|
      ensures Update(C32.CRC32)(WORDS32[i], DIGITS[i]) == WORDS32[i + 1]
    {
      UpdateIs(C32.CRC32, WORDS32[i], DIGITS[i]);
    }
  }

  const WORDS16: seq<bv16> :=
    [0x0000, 0x80A5, 0xA6AC, 0xAF7E, 0xFD59,
     0xDBB3, 0xB16E, 0xED17, 0x95FD, 0xFEE8]

  lemma Crc16Passes()
    ensures Passes(Update(C16.CRC16), WORDS16, DIGITS)
  {
    forall i | 0 <= i < |DIGITS|
      ensures Update(C16.CRC16)(WORDS16[i], DIGITS[i]) == WORDS16[i + 1]
    {
      UpdateIs(C16.CRC16, WORDS16[i], DIGITS[i]);
    }
  }

  /** The published check value of CRC-32. */
  lemma Crc32CheckValue()
    ensures Crc(C32.CRC32, DIGITS, 0) == 0xCBF4_3926
  {
    Crc32Passes();
    FoldPasses(Update(C32.CRC32), WORDS32, DIGITS);
    assert C32.CRC32.flip(0) == WORDS32[0] && C32.CRC32.flip(WORDS32[9]) == 0xCBF4_3926;
  }

  /** The published check value of this CRC-16. */
  lemma Crc16CheckValue()
    ensures Crc(C16.CRC16, DIGITS, 0) == 0xFEE8
  {
    Crc16Passes();
    FoldPasses(Update(C16.CRC16), WORDS16, DIGITS);
  }

  // ---- Polynomials ---------------------------------------------------------------------

  /** The polynomial's terms below the leading one; the register starts with the highest. */
  ghost predicate HasExponents(p: R.Reg, exponents: set<nat>) {
    forall e | 0 <= e < |p| :: p[|p| - 1 - e] <==> e in exponents
  }

  lemma Nibble32(x: bv32)
    ensures R.Bits(C32.First, C32.Rest, x, 4) == [x & 1 == 1, (x >> 1) & 1 == 1, (x >> 2) & 1 == 1, (x >> 3) & 1 == 1]
    ensures R.After(C32.Rest, x, 4) == x >> 4
  {
  }

  lemma Bits32(x: bv32, y: bv32)
    requires y == x >> 4
    ensures R.Bits(C32.First, C32.Rest, x, 8) ==
            [x & 1 == 1, (x >> 1) & 1 == 1, (x >> 2) & 1 == 1, (x >> 3) & 1 == 1] +
            [y & 1 == 1, (y >> 1) & 1 == 1, (y >> 2) & 1 == 1, (y >> 3) & 1 == 1]
  {
    R.BitsSplit(C32.First, C32.Rest, x, 4, 4);
    Nibble32(x);
    Nibble32(y);
  }

  /** The two halves of the register of CRC-32. */
  const HIGH32: R.Reg :=
    [false, false, false, false, false, true, false, false] + [true, true, false, false, false, false, false, true]
  const LOW32: R.Reg :=
    [false, false, false, true, true, true, false, true] + [true, false, true, true, false, true, true, true]

  lemma Poly32()
    ensures R.WordReg(C32.W, C32.POLY) == HIGH32 + LOW32
  {
    var a: bv32, b: bv32, c: bv32 := 0xEDB883, 0xEDB8, 0xED;
    R.BitsSplit(C32.First, C32.Rest, C32.POLY, 8, 24);
    R.BitsSplit(C32.First, C32.Rest, a, 8, 16);
    R.BitsSplit(C32.First, C32.Rest, b, 8, 8);
    C32.Skip8(C32.POLY);
    C32.Skip8(a);
    C32.Skip8(b);
    assert C32.POLY >> 8 == a && a >> 8 == b && b >> 8 == c;
    Bits32(C32.POLY, 0xEDB8832);
    Bits32(a, 0xEDB88);
    Bits32(b, 0xEDB);
    Bits32(c, 0xE);
  }

  lemma Spelled32(exponents: set<nat>)
    requires exponents == {26, 23, 22, 16, 12, 11, 10, 8, 7, 5, 4, 2, 1, 0}
    ensures HasExponents(HIGH32 + LOW32, exponents)
  {
    var p := HIGH32 + LOW32;
    forall e | 0 <= e < 32
      ensures p[31 - e] <==> e in exponents
    {
      if e < 16 {
        assert p[31 - e] == LOW32[15 - e];
      } else {
        assert p[31 - e] == HIGH32[31 - e];
      }
    }
  }

  lemma Carried(p: R.Reg, q: R.Reg, exponents: set<nat>)
    requires p == q && HasExponents(q, exponents)
    ensures HasExponents(p, exponents)
  {
  }

  /** The polynomial of section 8 of RFC 1952. */
  lemma Crc32Polynomial()
    ensures HasExponents(R.WordReg(C32.W, C32.POLY), {26, 23, 22, 16, 12, 11, 10, 8, 7, 5, 4, 2, 1, 0})
  {
    var exponents := {26, 23, 22, 16, 12, 11, 10, 8, 7, 5, 4, 2, 1, 0};
    Poly32();
    Spelled32(exponents);
    Carried(R.WordReg(C32.W, C32.POLY), HIGH32 + LOW32, exponents);
  }

  lemma Nibble16(x: bv16)
    ensures R.Bits(C16.First, C16.Rest, x, 4) ==
            [x & 0x8000 == 0x8000, (x << 1) & 0x8000 == 0x8000,
             (x << 2) & 0x8000 == 0x8000, (x << 3) & 0x8000 == 0x8000]
    ensures R.After(C16.Rest, x, 4) == x << 4
  {
  }

  lemma Bits16(x: bv16, y: bv16)
    requires y == x << 4
    ensures R.Bits(C16.First, C16.Rest, x, 8) ==
            [x & 0x8000 == 0x8000, (x << 1) & 0x8000 == 0x8000,
             (x << 2) & 0x8000 == 0x8000, (x << 3) & 0x8000 == 0x8000] +
            [y & 0x8000 == 0x8000, (y << 1) & 0x8000 == 0x8000,
             (y << 2) & 0x8000 == 0x8000, (y << 3) & 0x8000 == 0x8000]
  {
    R.BitsSplit(C16.First, C16.Rest, x, 4, 4);
    Nibble16(x);
    Nibble16(y);
  }

  lemma Poly16()
    ensures R.WordReg(C16.W, C16.POLY) ==
            [true, false, false, false, false, false, false, false] + [false, false, false, false, false, true, false, true]
  {
    var a: bv16 := 0x0500;
    R.BitsSplit(C16.First, C16.Rest, C16.POLY, 8, 8);
    C16.Skip8(C16.POLY);
    assert C16.POLY << 8 == a;
    Bits16(C16.POLY, 0x0050);
    Bits16(a, 0x5000);
  }

  lemma Crc16Polynomial()
    ensures HasExponents(R.WordReg(C16.W, C16.POLY), {15, 2, 0})
  {
    Poly16();
  }
}
