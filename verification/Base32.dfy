/** The streaming base32 encoder, against the definition in section 6 of RFC 4648. */
module Base32 {

  import opened BitString

  /** The alphabet, indexed by the low five bits: capital letters, then the digits from two. */
  function Symbol(x: nat): char {
    var d := x % 32;
    if d < 26 then 'A' + d as char else '2' + (d - 26) as char
  }

  /** The input bits in groups of five, one symbol each, padded to a whole block of eight. */
  ghost function Encode(src: seq<byte>): string {
    var text := Spell(Symbol, Groups(Chunks(src, 8), 5));
    text + Pads(RoundUp(|text|) - |text|)
  }

  lemma EncodedLength(src: seq<byte>)
    ensures |Encode(src)| == 8 * (|src| / 5 + (if |src| % 5 != 0 then 1 else 0))
  {
    ChunksLength(src, 8);
    GroupsCount(Chunks(src, 8), 5);
    WholeBlocks(|src|, |Groups(Chunks(src, 8), 5)|);
  }

  lemma WholeBlocks(n: nat, k: nat)
    requires 8 * n <= 5 * k < 8 * n + 5
    ensures RoundUp(k) == 8 * (n / 5 + (if n % 5 != 0 then 1 else 0))
  {
    var q, r := n / 5, n % 5;
    assert k - 8 * q == if r == 0 then 0 else if r == 1 then 2 else if r == 2 then 4 else if r == 3 then 5 else 7;
  }

  // ---- No information is lost ---------------------------------------------------------

  lemma SymbolsInjective(a: seq<nat>, b: seq<nat>)
    requires forall i | 0 <= i < |a| :: a[i] < 32
    requires forall i | 0 <= i < |b| :: b[i] < 32
    requires Spell(Symbol, a) == Spell(Symbol, b)
    ensures a == b
  {
    assert |a| == |b|;
    forall i | 0 <= i < |a|
      ensures a[i] == b[i]
    {
      assert Spell(Symbol, a)[i] == Spell(Symbol, b)[i];
    }
  }

  function Unpadded(text: string): string {
    if text != "" && text[|text| - 1] == '=' then Unpadded(text[..|text| - 1]) else text
  }

  /** Padding is never mistaken for a symbol. */
  lemma {:induction false} PaddingSeparates(a: seq<nat>, m: nat)
    ensures Unpadded(Spell(Symbol, a) + Pads(m)) == Spell(Symbol, a)
  {
    if m == 0 {
      assert Spell(Symbol, a) + Pads(0) == Spell(Symbol, a);
    } else {
      PaddingSeparates(a, m - 1);
      assert (Spell(Symbol, a) + Pads(m))[..|a| + m - 1] == Spell(Symbol, a) + Pads(m - 1);
    }
  }

  lemma SameTextSameGroups(a: seq<byte>, b: seq<byte>)
    requires Encode(a) == Encode(b)
    ensures Groups(Chunks(a, 8), 5) == Groups(Chunks(b, 8), 5)
  {
    var vs, ws := Groups(Chunks(a, 8), 5), Groups(Chunks(b, 8), 5);
    PaddingSeparates(vs, RoundUp(|vs|) - |vs|);
    PaddingSeparates(ws, RoundUp(|ws|) - |ws|);
    SymbolsInjective(vs, ws);
  }

  /** Different inputs never share a text. */
  lemma EncodeInjective(a: seq<byte>, b: seq<byte>)
    requires Encode(a) == Encode(b)
    ensures a == b
  {
    var bits, other := Chunks(a, 8), Chunks(b, 8);
    SameTextSameGroups(a, b);
    ChunksLength(a, 8);
    ChunksLength(b, 8);
    GroupsCount(bits, 5);
    GroupsCount(other, 5);
    assert |a| == |b|;
    GroupsKeepBits(bits, 5);
    GroupsKeepBits(other, 5);
    assert bits == other;
    GroupsOfChunks(a, 8);
    GroupsOfChunks(b, 8);
  }

  // ---- The shift register -----------------------------------------------------------

  /** `left` bits of `bits` are still in the register; the others left as `written` symbols. */
  ghost predicate Holds(bits: seq<bool>, written: nat, buffer: nat, left: nat) {
    && 5 * written + left == |bits|
    && BitsOf(buffer, left) == bits[5 * written..]
  }

  /** Shifting in a byte keeps every pending bit: at most four are pending, so none is lost. */
  lemma Absorb(bits: seq<bool>, written: nat, buffer: nat, left: nat, b: byte)
    requires Holds(bits, written, buffer, left) && left < 5
    ensures Holds(bits + BitsOf(b, 8), written, (buffer * 256 + b) % 0x1_0000_0000, left + 8)
  {
    assert (bits + BitsOf(b, 8))[5 * written..] == bits[5 * written..] + BitsOf(b, 8);
    ShiftIn(buffer, b, left, 24 - left);
  }

  lemma ShiftIn(x: nat, b: byte, left: nat, spare: nat)
    requires left + 8 + spare == 32
    ensures BitsOf((x * 256 + b) % 0x1_0000_0000, left + 8) == BitsOf(x, left) + BitsOf(b, 8)
  {
    var y := x * 256 + b;
    LowOfWord(y, left + 8, spare);
    AppendByte(x, left, b);
  }

  lemma LowOfWord(y: nat, n: nat, spare: nat)
    requires n + spare == 32
    ensures BitsOf(y % 0x1_0000_0000, n) == BitsOf(y, n)
  {
    Pow2Of32();
    Pow2Add(n, spare);
    ModMod(y, Pow2(n), Pow2(spare), 0x1_0000_0000);
    SameLowBits(y % 0x1_0000_0000, y, n);
  }

  /** The top five pending bits are the next group. */
  lemma Emit(bits: seq<bool>, written: nat, buffer: nat, left: nat)
    requires Holds(bits, written, buffer, left) && left >= 5
    ensures Holds(bits, written + 1, buffer, left - 5)
    ensures Groups(bits[..5 * (written + 1)], 5)
         == Groups(bits[..5 * written], 5) + [Shr(buffer, left - 5) % 32]
  {
    var w := 5 * written;
    var top := bits[w..w + 5];
    SplitBits(buffer, 5, left - 5);
    assert 5 + (left - 5) == left && top == bits[w..][..5] && bits[w + 5..] == bits[w..][5..];
    assert top == BitsOf(Shr(buffer, left - 5), 5);
    assert bits[..w + 5] == bits[..w] + top;
    GroupsConcat(bits[..w], top, 5, written);
    OneGroup(Shr(buffer, left - 5), 5);
  }

  /** Fewer than five pending bits become one group completed with zero bits. */
  lemma Flush(bits: seq<bool>, written: nat, buffer: nat, left: nat)
    requires Holds(bits, written, buffer, left) && 0 < left < 5
    ensures Groups(bits, 5) == Groups(bits[..5 * written], 5)
                             + [((buffer * Pow2(5 - left)) % 0x1_0000_0000) % 32]
  {
    var tail := bits[5 * written..];
    GroupsConcat(bits[..5 * written], tail, 5, written);
    assert bits == bits[..5 * written] + tail;
    ShortGroup(tail, 5);
    Pow2Add(left, 5 - left);
    ValueOfLowBits(buffer, left);
    FlushValue(buffer, Pow2(left), Value(tail), Pow2(5 - left));
  }

  lemma FlushValue(x: nat, p: nat, v: nat, z: nat)
    requires p > 0 && x % p == v && p * z == 32
    ensures ((x * z) % 0x1_0000_0000) % 32 == v * z
  {
    ShiftedValue(x, p, x / p, v, z);
    AtMost(v, p, z);
    DivUnique(x * z, 32, x / p, v * z);
    ModMod(x * z, 32, 0x800_0000, 0x1_0000_0000);
  }

  lemma ShiftedValue(x: nat, p: nat, q: nat, v: nat, z: nat)
    requires x == q * p + v
    ensures x * z == q * (p * z) + v * z
  {
    Distribute(q * p, v, z);
    Associate(q, p, z);
  }

  lemma AtMost(v: nat, p: nat, z: nat)
    requires v < p && z > 0
    ensures v * z < p * z
  {
  }

  lemma SymbolsConcat(a: seq<nat>, d: nat)
    ensures Spell(Symbol, a + [d]) == Spell(Symbol, a) + [Symbol(d)]
  {
  }

  // ---- The encoder ------------------------------------------------------------------

  /** The symbols written so far are those of the bits that left the register. */
  ghost predicate Written(bits: seq<bool>, written: nat, text: string)
    requires 5 * written <= |bits|
  {
    text == Spell(Symbol, Groups(bits[..5 * written], 5))
  }

  method DrainWholeGroups(ghost bits: seq<bool>, buffer: nat, bitsLeft: nat, out: array<char>, start: nat, limit: nat)
    returns (left: nat, written: nat)
    requires Holds(bits, start, buffer, bitsLeft)
    requires |bits| <= 5 * limit && start <= limit <= out.Length
    requires Written(bits, start, out[..start])
    modifies out
    ensures left < 5 && written <= limit && Holds(bits, written, buffer, left)
    ensures Written(bits, written, out[..written])
    ensures forall k | limit <= k < out.Length :: out[k] == old(out[k])
  {
    left, written := bitsLeft, start;
    while left >= 5
      invariant written <= limit && Holds(bits, written, buffer, left)
      invariant Written(bits, written, out[..written])
      invariant forall k | limit <= k < out.Length :: out[k] == old(out[k])
    {
      Emit(bits, written, buffer, left);
      var index := Shr(buffer, left - 5) % 32;
      SymbolsConcat(Groups(bits[..5 * written], 5), index);
      out[written] := Symbol(index);
      assert out[..written + 1] == out[..written] + [Symbol(index)];
      written := written + 1;
      left := left - 5;
    }
  }

  lemma AbsorbNext(src: seq<byte>, i: nat, written: nat, buffer: nat, left: nat, text: string)
    requires i < |src| && left < 5 && Holds(Chunks(src[..i], 8), written, buffer, left)
    requires Written(Chunks(src[..i], 8), written, text)
    ensures Holds(Chunks(src[..i + 1], 8), written, (buffer * 256 + src[i]) % 0x1_0000_0000, left + 8)
    ensures Written(Chunks(src[..i + 1], 8), written, text)
  {
    var bits, more := Chunks(src[..i], 8), BitsOf(src[i], 8);
    Absorb(bits, written, buffer, left, src[i]);
    assert src[..i + 1][..i] == src[..i];
    assert (bits + more)[..5 * written] == bits[..5 * written];
  }

  method FlushTail(ghost bits: seq<bool>, buffer: nat, left: nat, out: array<char>, start: nat, limit: nat)
    returns (written: nat)
    requires left < 5 && Holds(bits, start, buffer, left)
    requires |bits| <= 5 * limit && start <= limit <= out.Length
    requires Written(bits, start, out[..start])
    modifies out
    ensures written <= limit && out[..written] == Spell(Symbol, Groups(bits, 5))
    ensures forall k | limit <= k < out.Length :: out[k] == old(out[k])
  {
    written := start;
    if left > 0 {
      Flush(bits, written, buffer, left);
      var index := ((buffer * Pow2(5 - left)) % 0x1_0000_0000) % 32;
      SymbolsConcat(Groups(bits[..5 * written], 5), index);
      out[written] := Symbol(index);
      assert out[..written + 1] == out[..written] + [Symbol(index)];
      written := written + 1;
    } else {
      assert bits[..5 * written] == bits;
    }
  }

  /** The register and the text after the first `i` bytes. */
  ghost predicate Encoding(src: seq<byte>, i: nat, buffer: nat, left: nat, written: nat, text: string)
    requires i <= |src|
  {
    left < 5 && Holds(Chunks(src[..i], 8), written, buffer, left) && Written(Chunks(src[..i], 8), written, text)
  }

  lemma EncodingStarts(src: seq<byte>)
    ensures Encoding(src, 0, 0, 0, 0, "")
  {
    var none := Chunks(src[..0], 8);
    assert none == [] && none[..0] == [] && Groups(none, 5) == [];
  }

  method EncodeByte(src: seq<byte>, i: nat, buffer: nat, bitsLeft: nat, out: array<char>, start: nat, limit: nat)
    returns (buffer': nat, left: nat, written: nat)
    requires i < |src| && 8 * |src| <= 5 * limit && start <= limit <= out.Length
    requires Encoding(src, i, buffer, bitsLeft, start, out[..start])
    modifies out
    ensures written <= limit
    ensures Encoding(src, i + 1, buffer', left, written, out[..written])
    ensures forall k | limit <= k < out.Length :: out[k] == old(out[k])
  {
    AbsorbNext(src, i, start, buffer, bitsLeft, out[..start]);
    ChunksLength(src[..i + 1], 8);
    buffer' := (buffer * 256 + src[i]) % 0x1_0000_0000;
    left, written := DrainWholeGroups(Chunks(src[..i + 1], 8), buffer', bitsLeft + 8, out, start, limit);
  }

  /** Every bit of the input as a symbol: the body of the text, without its padding. */
  method EncodeSymbols(src: seq<byte>, out: array<char>, limit: nat) returns (written: nat)
    requires 8 * |src| <= 5 * limit && limit <= out.Length
    modifies out
    ensures written <= limit && out[..written] == Spell(Symbol, Groups(Chunks(src, 8), 5))
    ensures forall k | limit <= k < out.Length :: out[k] == old(out[k])
  {
    var buffer: nat, left: nat := 0, 0;
    written := 0;
    EncodingStarts(src);
    assert out[..0] == "";
    for i := 0 to |src|
      invariant written <= limit && Encoding(src, i, buffer, left, written, out[..written])
      invariant forall k | limit <= k < out.Length :: out[k] == old(out[k])
    {
      buffer, left, written := EncodeByte(src, i, buffer, left, out, written, limit);
    }
    assert src[..|src|] == src;
    ChunksLength(src, 8);
    written := FlushTail(Chunks(src, 8), buffer, left, out, written, limit);
  }

  /** The next multiple of eight. */
  function RoundUp(n: nat): nat {
    n + (8 - n % 8) % 8
  }

  lemma RoundUpReached(start: nat, n: nat)
    requires start <= n <= RoundUp(start)
    ensures n % 8 == 0 <==> n == RoundUp(start)
  {
  }

  method PadToBlock(out: array<char>, start: nat, limit: nat) returns (written: nat)
    requires RoundUp(start) <= limit <= out.Length
    modifies out
    ensures written == RoundUp(start)
    ensures out[..written] == old(out[..start]) + Pads(written - start)
    ensures forall k | limit <= k < out.Length :: out[k] == old(out[k])
  {
    written := start;
    ghost var end := RoundUp(start);
    RoundUpReached(start, start);
    while written % 8 != 0
      invariant start <= written <= end && (written % 8 == 0 <==> written == end)
      invariant out[..written] == old(out[..start]) + Pads(written - start)
      invariant forall k | limit <= k < out.Length :: out[k] == old(out[k])
      decreases end - written
    {
      out[written] := '=';
      assert out[..written + 1] == out[..written] + ['='];
      written := written + 1;
      RoundUpReached(start, written);
    }
  }

  /**
   * The whole text is written exactly when it fits with its terminator; otherwise nothing
   * is. No element after the terminator is touched.
   */
  method Base32Encode(src: seq<byte>, out: array<char>) returns (written: nat)
    modifies out
    ensures |Encode(src)| < out.Length ==>
      && written == |Encode(src)| && out[..written] == Encode(src) && out[written] == '\0'
      && forall k | written < k < out.Length :: out[k] == old(out[k])
    ensures |Encode(src)| >= out.Length ==> written == 0 && out[..] == old(out[..])
  {
    EncodedLength(src);
    if out.Length == 0 {
      return 0;
    }
    if |src| == 0 {
      out[0] := '\0';
      return 0;
    }
    var groups := |src| / 5 + (if |src| % 5 != 0 then 1 else 0);
    if groups > (out.Length - 1) / 8 {
      return 0;
    }
    written := EncodeSymbols(src, out, 8 * groups);
    written := PadToBlock(out, written, 8 * groups);
    out[written] := '\0';
  }
}
