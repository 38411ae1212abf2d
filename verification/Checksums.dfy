/**
 A checksum over bytes that keeps a machine word as its shift register. Everything here holds for any
 word width, polynomial, bit order and complement; each checksum of the program is one instance.
 */
module Checksums {
  import opened CrcRegister

  /**
   How the checksum works on words of type `T`: `entering` puts a byte where the next eight bits are shifted
   out, `unshift` undoes one shift, and `flip` is applied to the seed and to the result.
   */
  datatype Checksum<!T> = Checksum(word: Word<T>, poly: T, entering: bv8 -> T, unshift: T -> T, flip: T -> T)

  ghost predicate IsChecksum<T(!new)>(c: Checksum<T>) {
    IsWord(c.word) && c.word.width >= 8 && IsPoly(WordReg(c.word, c.poly)) && EntersBytes(c) && Reverses(c)
  }

  ghost predicate EntersBytes<T(!new)>(c: Checksum<T>) {
    && (forall b :: After(c.word.rest, c.entering(b), 8) == c.word.zero)
    && (forall a, b {:trigger c.entering(a), c.entering(b)} :: c.entering(a) == c.entering(b) ==> a == b)
  }

  ghost predicate Reverses<T(!new)>(c: Checksum<T>) {
    && (forall y :: ShiftWord(c.word, c.poly, c.unshift(y)) == y)
    && (forall x, y :: c.word.xor(c.word.xor(x, y), y) == x)
    && (forall x :: c.flip(c.flip(x)) == x)
  }

  function Update<T>(c: Checksum<T>): (T, bv8) -> T {
    (x, b) => UpdateWord(c.word, c.poly, x, c.entering(b))
  }

  function Unupdate<T>(c: Checksum<T>): (T, bv8) -> T {
    (y, b) => c.word.xor(UnshiftWords(c.unshift, y, 8), c.entering(b))
  }

  function Register<T>(c: Checksum<T>): T -> Reg {
    x => WordReg(c.word, x)
  }

  /** The bits of a byte in the order in which they meet the register. */
  function ByteBits<T>(c: Checksum<T>): bv8 -> seq<bool> {
    b => Bits(c.word.first, c.word.rest, c.entering(b), 8)
  }

  function Crc<T>(c: Checksum<T>, data: seq<bv8>, seed: T): T {
    c.flip(Fold(Update(c), c.flip(seed), data))
  }

  /** The byte-wise loop is the bit-serial register fed with the message. */
  lemma UpdateImplementsRegister<T(!new)>(c: Checksum<T>)
    requires IsChecksum(c)
    ensures Implements(WordReg(c.word, c.poly), Register(c), ByteBits(c), Update(c))
  {
    forall x, y {:trigger Register(c)(x), Register(c)(y)}
      ensures Register(c)(x) == Register(c)(y) ==> x == y
    {
      RegInjective(c.word, x, y);
    }
    forall x, b
      ensures Register(c)(Update(c)(x, b)) == Feed(WordReg(c.word, c.poly), Register(c)(x), ByteBits(c)(b))
    {
      UpdateIsFeed(c.word, c.poly, x, c.entering(b));
    }
  }

  lemma UpdateAfterUnupdate<T(!new)>(c: Checksum<T>, y: T, b: bv8)
    requires Reverses(c)
    ensures Update(c)(Unupdate(c)(y, b), b) == y
  {
    var u, e := UnshiftWords(c.unshift, y, 8), c.entering(b);
    ShiftsAfterUnshifts(c.word, c.poly, c.unshift, y, 8);
    assert c.word.xor(c.word.xor(u, e), e) == u;
    UpdateIs(c, c.word.xor(u, e), b);
  }

  lemma UpdateIs<T>(c: Checksum<T>, x: T, b: bv8)
    ensures Update(c)(x, b) == ShiftWords(c.word, c.poly, c.word.xor(x, c.entering(b)), 8)
  {
    assert Update(c)(x, b) == UpdateWord(c.word, c.poly, x, c.entering(b));
  }

  // ---- What the checksum guarantees -----------------------------------------------

  /** The checksum of a concatenation is the checksum of the second part seeded with that of the first. */
  lemma {:induction false} CrcConcat<T(!new)>(c: Checksum<T>, a: seq<bv8>, b: seq<bv8>, seed: T)
    requires IsChecksum(c)
    ensures Crc(c, a + b, seed) == Crc(c, b, Crc(c, a, seed))
  {
    FlippedFoldConcat(Update(c), c.flip, seed, a, b);
  }

  /** The seed for which `data` has checksum `crc`. */
  function SeedFor<T>(c: Checksum<T>, data: seq<bv8>, crc: T): T {
    c.flip(Unfold(Unupdate(c), c.flip(crc), data))
  }

  /** For a fixed message the checksum is a bijection of the seed: every checksum has a seed ... */
  lemma {:induction false} SeedSurjective<T(!new)>(c: Checksum<T>, data: seq<bv8>, crc: T)
    requires IsChecksum(c)
    ensures Crc(c, data, SeedFor(c, data, crc)) == crc
  {
    forall y, b
      ensures Update(c)(Unupdate(c)(y, b), b) == y
    {
      UpdateAfterUnupdate(c, y, b);
    }
    FoldAfterUnfold(Update(c), Unupdate(c), c.flip(crc), data);
  }

  /** ... and only one. */
  lemma {:induction false} SeedInjective<T(!new)>(c: Checksum<T>, data: seq<bv8>, seed1: T, seed2: T)
    requires IsChecksum(c)
    ensures Crc(c, data, seed1) == Crc(c, data, seed2) ==> seed1 == seed2
  {
    UpdateImplementsRegister(c);
    FoldInjective(WordReg(c.word, c.poly), Register(c), ByteBits(c), Update(c), c.flip(seed1), c.flip(seed2), data);
    FlipInjective(c, Fold(Update(c), c.flip(seed1), data), Fold(Update(c), c.flip(seed2), data));
    FlipInjective(c, seed1, seed2);
  }

  lemma FlipInjective<T(!new)>(c: Checksum<T>, x: T, y: T)
    requires Reverses(c)
    ensures c.flip(x) == c.flip(y) ==> x == y
  {
    assert c.flip(c.flip(x)) == x && c.flip(c.flip(y)) == y;
  }

  /** Two messages whose bit streams differ only within a width of consecutive bits have different checksums. */
  lemma {:induction false} BurstDetected<T(!new)>(c: Checksum<T>, m1: seq<bv8>, m2: seq<bv8>, seed: T,
                                  before: seq<bool>, a: seq<bool>, b: seq<bool>, after: seq<bool>)
    requires IsChecksum(c)
    requires Stream(ByteBits(c), m1) == before + a + after && Stream(ByteBits(c), m2) == before + b + after
    requires |a| == |b| <= c.word.width && a != b
    ensures Crc(c, m1, seed) != Crc(c, m2, seed)
  {
    UpdateImplementsRegister(c);
    FoldDetectsBurst(WordReg(c.word, c.poly), Register(c), ByteBits(c), Update(c), c.flip(seed), m1, m2,
                     before, a, b, after);
    FlipInjective(c, Fold(Update(c), c.flip(seed), m1), Fold(Update(c), c.flip(seed), m2));
  }

  lemma ByteBitsInjective<T(!new)>(c: Checksum<T>, a: bv8, b: bv8)
    requires IsChecksum(c) && ByteBits(c)(a) == ByteBits(c)(b)
    ensures a == b
  {
    BitsInjective(c.word.first, c.word.rest, c.entering(a), c.entering(b), 8);
  }

  /** In particular, no change of a single byte goes unnoticed. */
  lemma {:induction false} ByteChangeDetected<T(!new)>(c: Checksum<T>, x: seq<bv8>, a: bv8, b: bv8, y: seq<bv8>, seed: T)
    requires IsChecksum(c) && a != b
    ensures Crc(c, x + [a] + y, seed) != Crc(c, x + [b] + y, seed)
  {
    if ByteBits(c)(a) == ByteBits(c)(b) {
      ByteBitsInjective(c, a, b);
    }
    UpdateImplementsRegister(c);
    FoldDetectsChange(WordReg(c.word, c.poly), Register(c), ByteBits(c), Update(c), c.flip(seed), x, a, b, y);
    FlipInjective(c, Fold(Update(c), c.flip(seed), x + [a] + y), Fold(Update(c), c.flip(seed), x + [b] + y));
  }
}
