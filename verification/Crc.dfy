/** The reflected CRC-32 of section 8 of RFC 1952, as the program computes it. */
module Crc32Model {
  import R = CrcRegister
  import opened Checksums

  const POLY: bv32 := 0xEDB88320
  const ALL_ONES: bv32 := 0xFFFF_FFFF

  predicate First(x: bv32) { x & 1 == 1 }

  function Rest(x: bv32): bv32 { x >> 1 }

  function Plus(x: bv32, y: bv32): bv32 { x ^ y }

  function Entering(b: bv8): bv32 { b as bv32 }

  function Unshift(y: bv32): bv32 { if y & 0x8000_0000 == 0x8000_0000 then (Plus(y, POLY) << 1) | 1 else y << 1 }

  function Flip(x: bv32): bv32 { x ^ ALL_ONES }

  /** Words of this width, read in the order in which their bits are shifted out. */
  const W: R.Word<bv32> := R.Word(32, First, Rest, Plus, 0)

  const CRC32: Checksum<bv32> := Checksum(W, POLY, Entering, Unshift, Flip)

  method Crc32(data: seq<bv8>, seed: bv32) returns (crc: bv32)
    ensures crc == Crc(CRC32, data, seed)
  {
    crc := seed ^ ALL_ONES;
    ghost var start := Flip(seed);
    for i := 0 to |data|
      invariant crc == R.Fold(Update(CRC32), start, data[..i])
    {
      assert data[..i + 1][..i] == data[..i];
      crc := UpdateByte(crc, data[i]);
    }
    assert data[..|data|] == data;
    crc := crc ^ ALL_ONES;
  }

  lemma EnterIs(x: bv32, b: bv8)
    ensures CRC32.word.xor(x, CRC32.entering(b)) == x ^ (b as bv32)
  {
  }

  method UpdateByte(x: bv32, b: bv8) returns (crc: bv32)
    ensures crc == Update(CRC32)(x, b)
  {
    UpdateIs(CRC32, x, b);
    EnterIs(x, b);
    crc := ShiftByte(x ^ (b as bv32));
  }

  method ShiftByte(x: bv32) returns (crc: bv32)
    ensures crc == R.ShiftWords(W, POLY, x, 8)
  {
    crc := x;
    for bit := 0 to 8
      invariant R.ShiftWords(W, POLY, crc, 8 - bit) == R.ShiftWords(W, POLY, x, 8)
    {
      if crc & 1 == 1 {
        crc := (crc >> 1) ^ POLY;
      } else {
        crc := crc >> 1;
      }
    }
  }

  // ---- The word is a register -------------------------------------------------------

  lemma Skip7(x: bv32)
    ensures R.After(Rest, x, 7) == x >> 7
  {
  }

  lemma Skip8(x: bv32)
    ensures R.After(Rest, x, 8) == x >> 8
  {
  }

  lemma Skip16(x: bv32)
    ensures R.After(Rest, x, 16) == x >> 16
  {
    R.AfterTwice(Rest, x, 8, 8);
    Skip8(x);
    Skip8(x >> 8);
    assert (x >> 8) >> 8 == x >> 16;
  }

  lemma NothingAfter(x: bv32)
    ensures R.After(Rest, x, 32) == 0
  {
    R.AfterTwice(Rest, x, 16, 16);
    Skip16(x);
    Skip16(x >> 16);
    assert (x >> 16) >> 16 == 0;
  }

  lemma XorRest(x: bv32, y: bv32)
    ensures Rest(Plus(x, y)) == Plus(Rest(x), Rest(y)) && First(Plus(x, y)) == (First(x) != First(y))
  {
  }

  lemma FirstRestInjective(x: bv32, y: bv32)
    ensures First(x) == First(y) && Rest(x) == Rest(y) ==> x == y
  {
  }

  lemma IsLinear()
    ensures R.Linear(W)
  {
    forall u, v {:trigger Rest(Plus(u, v))} {:trigger First(Plus(u, v))}
      ensures Rest(Plus(u, v)) == Plus(Rest(u), Rest(v)) && First(Plus(u, v)) == (First(u) != First(v))
    {
      XorRest(u, v);
    }
  }

  lemma IsInjective()
    ensures R.Injective(W)
  {
    forall u: bv32, v: bv32
      ensures W.first(u) == W.first(v) && W.rest(u) == W.rest(v) ==> u == v
    {
      FirstRestInjective(u, v);
    }
  }

  lemma IsWord()
    ensures R.IsWord(W)
  {
    IsLinear();
    IsInjective();
    assert W.rest(W.zero) == W.zero && !W.first(W.zero);
    forall u: bv32
      ensures R.After(W.rest, u, W.width) == W.zero
    {
      NothingAfter(u);
    }
  }

  lemma PolyIsPoly()
    ensures R.IsPoly(R.WordReg(W, POLY))
  {
    R.BitsSplit(First, Rest, POLY, 31, 1);
    R.AfterTwice(Rest, POLY, 16, 15);
    Skip16(POLY);
    var a: bv32, b: bv32 := 0xEDB8, 0xED;
    R.AfterTwice(Rest, a, 8, 7);
    Skip8(a);
    assert POLY >> 16 == a && a >> 8 == b;
    Skip7(b);
    assert b >> 7 == 1;
  }

  // ---- Running backwards ----------------------------------------------------------

  lemma PushPop(z: bv32)
    requires z & 0x8000_0000 == 0
    ensures First((z << 1) | 1) && Rest((z << 1) | 1) == z && !First(z << 1) && Rest(z << 1) == z
  {
  }

  lemma LastBit(y: bv32)
    ensures y & 0x8000_0000 == 0x8000_0000 || y & 0x8000_0000 == 0
    ensures y & 0x8000_0000 == 0x8000_0000 ==> (y ^ POLY) & 0x8000_0000 == 0
  {
  }

  lemma XorTwice(x: bv32, y: bv32)
    ensures Plus(Plus(x, y), y) == x && Flip(Flip(x)) == x
  {
  }

  lemma ShiftAfterUnshift(y: bv32)
    ensures R.ShiftWord(W, POLY, Unshift(y)) == y
  {
    LastBit(y);
    if y & 0x8000_0000 == 0x8000_0000 {
      PushPop(Plus(y, POLY));
      XorTwice(y, POLY);
    } else {
      PushPop(y);
    }
  }

  lemma IsReversible()
    ensures Reverses(CRC32)
  {
    forall y
      ensures R.ShiftWord(W, POLY, Unshift(y)) == y
    {
      ShiftAfterUnshift(y);
    }
    forall x, y
      ensures Plus(Plus(x, y), y) == x
    {
      XorTwice(x, y);
    }
    forall x
      ensures Flip(Flip(x)) == x
    {
      XorTwice(x, x);
    }
  }

  lemma ByteEnters(a: bv8, b: bv8)
    ensures R.After(Rest, Entering(a), 8) == 0 && (Entering(a) == Entering(b) ==> a == b)
  {
    Skip8(Entering(a));
    assert Entering(a) >> 8 == 0;
  }

  /** The checksum is a 32-bit shift register, so the laws of `Checksums` hold for it. */
  lemma IsShiftRegister()
    ensures IsChecksum(CRC32)
  {
    IsWord();
    PolyIsPoly();
    IsReversible();
    forall a, b
      ensures R.After(Rest, Entering(a), 8) == 0 && (Entering(a) == Entering(b) ==> a == b)
    {
      ByteEnters(a, b);
    }
  }
}

/** The CRC-16 of the program, which shifts towards the high-order bit. */
module Crc16Model {
  import R = CrcRegister
  import opened Checksums

  const POLY: bv16 := 0x8005

  predicate First(x: bv16) { x & 0x8000 == 0x8000 }

  function Rest(x: bv16): bv16 { x << 1 }

  function Plus(x: bv16, y: bv16): bv16 { x ^ y }

  function Entering(b: bv8): bv16 { (b as bv16) << 8 }

  function Unshift(y: bv16): bv16 { if y & 0x1 == 0x1 then (Plus(y, POLY) >> 1) | 0x8000 else y >> 1 }

  function Same(x: bv16): bv16 { x }

  /** Words of this width, read in the order in which their bits are shifted out. */
  const W: R.Word<bv16> := R.Word(16, First, Rest, Plus, 0)

  const CRC16: Checksum<bv16> := Checksum(W, POLY, Entering, Unshift, Same)

  lemma TopBit(x: bv16)
    ensures x & 0x8000 != 0 <==> x & 0x8000 == 0x8000
  {
  }

  method Crc16(data: seq<bv8>, seed: bv16) returns (crc: bv16)
    ensures crc == Crc(CRC16, data, seed)
  {
    crc := seed;
    for i := 0 to |data|
      invariant crc == R.Fold(Update(CRC16), seed, data[..i])
    {
      assert data[..i + 1][..i] == data[..i];
      crc := UpdateByte(crc, data[i]);
    }
    assert data[..|data|] == data;
  }

  lemma EnterIs(x: bv16, b: bv8)
    ensures CRC16.word.xor(x, CRC16.entering(b)) == x ^ ((b as bv16) << 8)
  {
  }

  method UpdateByte(x: bv16, b: bv8) returns (crc: bv16)
    ensures crc == Update(CRC16)(x, b)
  {
    UpdateIs(CRC16, x, b);
    EnterIs(x, b);
    crc := ShiftByte(x ^ ((b as bv16) << 8));
  }

  method ShiftByte(x: bv16) returns (crc: bv16)
    ensures crc == R.ShiftWords(W, POLY, x, 8)
  {
    crc := x;
    for bit := 0 to 8
      invariant R.ShiftWords(W, POLY, crc, 8 - bit) == R.ShiftWords(W, POLY, x, 8)
    {
      TopBit(crc);
      if crc & 0x8000 != 0 {
        crc := (crc << 1) ^ POLY;
      } else {
        crc := crc << 1;
      }
    }
  }

  // ---- The word is a register -------------------------------------------------------

  lemma Skip7(x: bv16)
    ensures R.After(Rest, x, 7) == x << 7
  {
  }

  lemma Skip8(x: bv16)
    ensures R.After(Rest, x, 8) == x << 8
  {
  }

  lemma NothingAfter(x: bv16)
    ensures R.After(Rest, x, 16) == 0
  {
    R.AfterTwice(Rest, x, 8, 8);
    Skip8(x);
    Skip8(x << 8);
    assert (x << 8) << 8 == 0;
  }

  lemma XorRest(x: bv16, y: bv16)
    ensures Rest(Plus(x, y)) == Plus(Rest(x), Rest(y)) && First(Plus(x, y)) == (First(x) != First(y))
  {
  }

  lemma FirstRestInjective(x: bv16, y: bv16)
    ensures First(x) == First(y) && Rest(x) == Rest(y) ==> x == y
  {
  }

  lemma IsLinear()
    ensures R.Linear(W)
  {
    forall u, v {:trigger Rest(Plus(u, v))} {:trigger First(Plus(u, v))}
      ensures Rest(Plus(u, v)) == Plus(Rest(u), Rest(v)) && First(Plus(u, v)) == (First(u) != First(v))
    {
      XorRest(u, v);
    }
  }

  lemma IsInjective()
    ensures R.Injective(W)
  {
    forall u: bv16, v: bv16
      ensures W.first(u) == W.first(v) && W.rest(u) == W.rest(v) ==> u == v
    {
      FirstRestInjective(u, v);
    }
  }

  lemma IsWord()
    ensures R.IsWord(W)
  {
    IsLinear();
    IsInjective();
    assert W.rest(W.zero) == W.zero && !W.first(W.zero);
    forall u: bv16
      ensures R.After(W.rest, u, W.width) == W.zero
    {
      NothingAfter(u);
    }
  }

  lemma PolyIsPoly()
    ensures R.IsPoly(R.WordReg(W, POLY))
  {
    R.BitsSplit(First, Rest, POLY, 15, 1);
    var a: bv16 := 0x0500;
    R.AfterTwice(Rest, POLY, 8, 7);
    Skip8(POLY);
    assert POLY << 8 == a;
    Skip7(a);
    assert a << 7 == 0x8000;
  }

  // ---- Running backwards ----------------------------------------------------------

  lemma PushPop(z: bv16)
    requires z & 0x1 == 0
    ensures First((z >> 1) | 0x8000) && Rest((z >> 1) | 0x8000) == z && !First(z >> 1) && Rest(z >> 1) == z
  {
  }

  lemma LastBit(y: bv16)
    ensures y & 0x1 == 0x1 || y & 0x1 == 0
    ensures y & 0x1 == 0x1 ==> (y ^ POLY) & 0x1 == 0
  {
  }

  lemma XorTwice(x: bv16, y: bv16)
    ensures Plus(Plus(x, y), y) == x
  {
  }

  lemma ShiftAfterUnshift(y: bv16)
    ensures R.ShiftWord(W, POLY, Unshift(y)) == y
  {
    LastBit(y);
    if y & 0x1 == 0x1 {
      PushPop(Plus(y, POLY));
      XorTwice(y, POLY);
    } else {
      PushPop(y);
    }
  }

  lemma IsReversible()
    ensures Reverses(CRC16)
  {
    forall y
      ensures R.ShiftWord(W, POLY, Unshift(y)) == y
    {
      ShiftAfterUnshift(y);
    }
    forall x, y
      ensures Plus(Plus(x, y), y) == x
    {
      XorTwice(x, y);
    }
  }

  lemma ByteEnters(a: bv8, b: bv8)
    ensures R.After(Rest, Entering(a), 8) == 0 && (Entering(a) == Entering(b) ==> a == b)
  {
    Skip8(Entering(a));
    assert Entering(a) << 8 == 0;
  }

  /** The checksum is a 16-bit shift register, so the laws of `Checksums` hold for it. */
  lemma IsShiftRegister()
    ensures IsChecksum(CRC16)
  {
    IsWord();
    PolyIsPoly();
    IsReversible();
    forall a, b
      ensures R.After(Rest, Entering(a), 8) == 0 && (Entering(a) == Entering(b) ==> a == b)
    {
      ByteEnters(a, b);
    }
  }
}
