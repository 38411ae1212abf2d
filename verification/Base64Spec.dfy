/** Base64: the block encoder and decoder on values, and what they are to each other. */
module Base64Spec {

  import opened Options
  import opened BitString

  /** The encoding table, indexed by the low six bits. */
  function Symbol(x: nat): char {
    var d := x % 64;
    if d < 26 then 'A' + d as char
    else if d < 52 then 'a' + (d - 26) as char
    else if d < 62 then '0' + (d - 52) as char
    else if d == 62 then '+' else '/'
  }

  /** The decoding table: minus one outside the alphabet. */
  function Digit(c: char): (d: int)
    ensures -1 <= d < 64
  {
    if 'A' <= c <= 'Z' then c as int - 'A' as int
    else if 'a' <= c <= 'z' then c as int - 'a' as int + 26
    else if '0' <= c <= '9' then c as int - '0' as int + 52
    else if c == '+' then 62 else if c == '/' then 63 else -1
  }

  lemma TablesAreInverse(x: nat, c: char)
    ensures Digit(Symbol(x)) == x % 64
    ensures Digit(c) >= 0 ==> Symbol(Digit(c)) == c
    ensures Digit('=') < 0
  {
  }

  // ---- Encoding ---------------------------------------------------------------------

  /** The 24 bits of a block, zero-filled on the right. */
  function BlockBits(src: seq<byte>): (x: nat)
    requires 1 <= |src| <= 3
    ensures x < 0x100_0000
  {
    src[0] as nat * 65536 + (if |src| > 1 then src[1] as nat * 256 else 0) + (if |src| > 2 then src[2] else 0)
  }

  /** The four six-bit digits of a block. */
  function Digits(x: nat): (ds: seq<nat>)
    ensures |ds| == 4
  {
    [x / 262144 % 64, x / 4096 % 64, x / 64 % 64, x % 64]
  }

  /** One symbol more than there are bytes, then padding. */
  function EncodeBlock(src: seq<byte>): (text: string)
    requires 1 <= |src| <= 3
    ensures |text| == 4
  {
    Spell(Symbol, Digits(BlockBits(src))[..|src| + 1]) + Pads(3 - |src|)
  }

  function Encode(src: seq<byte>): (text: string)
    ensures |text| == 4 * (|src| / 3 + (if |src| % 3 != 0 then 1 else 0))
  {
    if src == [] then ""
    else if |src| <= 3 then EncodeBlock(src)
    else EncodeBlock(src[..3]) + Encode(src[3..])
  }

  // ---- Decoding ---------------------------------------------------------------------

  predicate InAlphabet(c: char) {
    Digit(c) >= 0
  }

  /** The 24 bits of a group; a padding character contributes nothing. */
  function GroupBits(g: string): (x: nat)
    requires |g| == 4
    ensures x < 0x100_0000
  {
    Part(g[0]) * 262144 + Part(g[1]) * 4096 + Part(g[2]) * 64 + Part(g[3])
  }

  function Part(c: char): (d: nat)
    ensures d < 64
  {
    if Digit(c) < 0 then 0 else Digit(c)
  }

  function PadCount(g: string): nat
    requires |g| == 4
  {
    (if g[0] == '=' then 1 else 0) + (if g[1] == '=' then 1 else 0)
    + (if g[2] == '=' then 1 else 0) + (if g[3] == '=' then 1 else 0)
  }

  predicate GroupAccepted(g: string, last: bool)
    requires |g| == 4
  {
    && InAlphabet(g[0]) && InAlphabet(g[1])
    && if PadCount(g) == 0 then InAlphabet(g[2]) && InAlphabet(g[3])
       else last && if PadCount(g) == 2 then g[2] == '=' && g[3] == '='
       else PadCount(g) == 1 && g[3] == '=' && InAlphabet(g[2])
  }

  function GroupBytes(g: string): (bytes: seq<byte>)
    requires |g| == 4 && PadCount(g) <= 2
    ensures |bytes| == 3 - PadCount(g)
  {
    var x := GroupBits(g);
    [x / 65536 % 256, x / 256 % 256, x % 256][..3 - PadCount(g)]
  }

  function Decode(text: string): Option<seq<byte>> {
    if |text| == 0 then Some([])
    else if |text| < 4 || !GroupAccepted(text[..4], |text| == 4) then None
    else match Decode(text[4..])
      case None => None
      case Some(rest) => Some(GroupBytes(text[..4]) + rest)
  }

  // ---- The accepted language --------------------------------------------------------

  /** How many padding characters end the text, counting at most two. */
  function Padding(text: string): (p: nat)
    ensures p <= 2 && p <= |text|
  {
    if |text| < 2 || text[|text| - 1] != '=' then 0 else if text[|text| - 2] != '=' then 1 else 2
  }

  /** Whole groups, all in the alphabet but for at most two padding characters at the end. */
  ghost predicate WellFormed(text: string) {
    && |text| % 4 == 0
    && forall i | 0 <= i < |text| - Padding(text) :: InAlphabet(text[i])
  }

  lemma GroupWellFormed(g: string)
    requires |g| == 4
    ensures GroupAccepted(g, true) <==> WellFormed(g)
    ensures GroupAccepted(g, false) <==> WellFormed(g) && Padding(g) == 0
    ensures GroupAccepted(g, true) ==> PadCount(g) == Padding(g)
  {
  }

  lemma SplitWellFormed(text: string)
    requires |text| > 4 && |text| % 4 == 0
    ensures WellFormed(text) <==> GroupAccepted(text[..4], false) && WellFormed(text[4..])
    ensures Padding(text) == Padding(text[4..])
  {
    var g, rest := text[..4], text[4..];
    GroupWellFormed(g);
    var n := |rest| - Padding(rest);
    assert forall i | 0 <= i < |rest| :: rest[i] == text[i + 4];
    if WellFormed(text) {
      assert forall i | 0 <= i < 4 :: g[i] == text[i];
    }
  }

  /** The decoder accepts exactly the well-formed texts, and yields three bytes a group less padding. */
  lemma {:induction false} AcceptedExactly(text: string)
    ensures Decode(text).Some? <==> WellFormed(text)
    ensures WellFormed(text) ==> |Decode(text).value| == |text| / 4 * 3 - Padding(text)
  {
    AcceptedWhen(text);
    if WellFormed(text) {
      DecodedBytes(text);
    }
  }

  lemma {:induction false} AcceptedWhen(text: string)
    ensures Decode(text).Some? <==> WellFormed(text)
    decreases |text|
  {
    if |text| == 4 {
      AcceptedGroup(text);
    } else if |text| > 4 {
      AcceptedWhen(text[4..]);
      DecodeSplits(text);
      if |text| % 4 == 0 {
        SplitWellFormed(text);
      } else {
        assert |text[4..]| % 4 != 0;
      }
    }
  }

  lemma {:induction false} DecodedBytes(text: string)
    requires Decode(text).Some?
    ensures |text| % 4 == 0 && |Decode(text).value| == |text| / 4 * 3 - Padding(text)
    decreases |text|
  {
    if |text| == 4 {
      AcceptedGroup(text);
    } else if |text| > 4 {
      DecodeSplits(text);
      DecodedBytes(text[4..]);
      LongEnough(text);
      PaddingOfRest(text);
    }
  }

  lemma LongEnough(text: string)
    requires |text| > 4 && |text[4..]| % 4 == 0
    ensures |text| >= 8 && |text| % 4 == 0 && |text| / 4 == |text[4..]| / 4 + 1
  {
  }

  lemma PaddingOfRest(text: string)
    requires |text| >= 6
    ensures Padding(text) == Padding(text[4..])
  {
  }

  lemma DecodeSplits(text: string)
    requires |text| > 4
    ensures Decode(text).Some? <==> GroupAccepted(text[..4], false) && Decode(text[4..]).Some?
    ensures Decode(text).Some? ==> |Decode(text).value| == 3 + |Decode(text[4..]).value|
  {
    GroupWellFormed(text[..4]);
  }

  lemma AcceptedGroup(g: string)
    requires |g| == 4
    ensures Decode(g).Some? <==> WellFormed(g)
    ensures WellFormed(g) ==> |Decode(g).value| == 3 - Padding(g)
  {
    assert g[..4] == g && g[4..] == "";
    GroupWellFormed(g);
  }

  // ---- The definition of RFC 4648 ------------------------------------------------------

  /** The input bits in groups of six, one symbol each. */
  ghost function Body(src: seq<byte>): string {
    Spell(Symbol, Groups(Chunks(src, 8), 6))
  }

  /** A text padded to a whole block of four. */
  function Padded(text: string): string {
    text + Pads((4 - |text| % 4) % 4)
  }

  lemma PaddedAfterBlock(block: string, text: string)
    requires |block| == 4
    ensures Padded(block + text) == block + Padded(text)
  {
    assert |block + text| % 4 == |text| % 4;
  }

  /** Section 4 of RFC 4648. */
  ghost function Reference(src: seq<byte>): string {
    Padded(Body(src))
  }

  lemma NumberOfBlock(src: seq<byte>)
    requires 1 <= |src| <= 3
    ensures BlockBits(src) == Number(src) * (if |src| == 1 then 65536 else if |src| == 2 then 256 else 1)
  {
    assert Number(src[..0]) == 0;
    assert src[..1][..0] == src[..0] && Number(src[..1]) == src[0] as nat;
    if |src| > 1 {
      assert src[..2][..1] == src[..1] && Number(src[..2]) == src[0] as nat * 256 + src[1];
    }
    assert src[..|src|] == src;
  }

  lemma FourGroups(x: nat)
    ensures Groups(BitsOf(x, 24), 6) == Digits(x)
  {
    Pow2Add(9, 9);
    TopDigit(x, 18, 262144);
    TopDigit(x, 12, 4096);
    TopDigit(x, 6, 64);
    OneGroup(x, 6);
  }

  lemma TopDigit(x: nat, k: nat, p: nat)
    requires p == Pow2(k)
    ensures Groups(BitsOf(x, 6 + k), 6) == [x / p % 64] + Groups(BitsOf(x, k), 6)
  {
    NextGroup(x, 6, k);
    ShrDivides(x, k);
  }

  lemma ThreeGroups(y: nat)
    ensures Groups(BitsOf(y, 16), 6) == Digits(y * 256)[..3]
  {
    TopDigit(y, 10, 1024);
    TopDigit(y, 4, 16);
    ShortGroup(BitsOf(y, 4), 6);
    ValueOfLowBits(y, 4);
    DigitsOfTwo(y);
  }

  lemma DigitsOfTwo(y: nat)
    ensures Digits(y * 256)[..3] == [y / 1024 % 64, y / 16 % 64, y % 16 * 4]
  {
    assert y * 256 / 262144 == y / 1024;
    assert y * 256 / 4096 == y / 16;
    assert y * 256 / 64 == y * 4;
  }

  lemma TwoGroups(y: nat)
    ensures Groups(BitsOf(y, 8), 6) == Digits(y * 65536)[..2]
  {
    TopDigit(y, 2, 4);
    ShortGroup(BitsOf(y, 2), 6);
    ValueOfLowBits(y, 2);
    DigitsOfOne(y);
  }

  lemma DigitsOfOne(y: nat)
    ensures Digits(y * 65536)[..2] == [y / 4 % 64, y % 4 * 16]
  {
    assert y * 65536 / 262144 == y / 4;
    assert y * 65536 / 4096 == y * 16;
  }

  lemma GroupsOfBlock(src: seq<byte>)
    requires 1 <= |src| <= 3
    ensures Groups(Chunks(src, 8), 6) == Digits(BlockBits(src))[..|src| + 1]
  {
    var y := Number(src);
    NumberOfBlock(src);
    assert Chunks(src, 8) == BitsOf(y, 8 * |src|) by { BytesAreBits(src); }
    if |src| == 3 {
      FourGroups(y);
    } else if |src| == 2 {
      ThreeGroups(y);
    } else {
      TwoGroups(y);
    }
  }

  lemma PadsNeeded(n: nat)
    requires 1 <= n <= 3
    ensures (4 - (n + 1) % 4) % 4 == 3 - n
  {
  }

  lemma BodyOfBlock(src: seq<byte>)
    requires 1 <= |src| <= 3
    ensures Reference(src) == EncodeBlock(src)
    ensures |src| == 3 ==> Body(src) == EncodeBlock(src)
  {
    GroupsOfBlock(src);
    PadsNeeded(|src|);
  }

  lemma BodySplits(src: seq<byte>)
    requires |src| >= 3
    ensures Body(src) == Body(src[..3]) + Body(src[3..])
  {
    var head, tail := src[..3], src[3..];
    assert src == head + tail;
    ChunksConcat(head, tail, 8);
    ChunksLength(head, 8);
    GroupsConcat(Chunks(head, 8), Chunks(tail, 8), 6, 4);
  }

  /** The block-wise encoder computes the definition of RFC 4648. */
  lemma {:induction false} EncodeIsReference(src: seq<byte>)
    ensures Encode(src) == Reference(src)
    decreases |src|
  {
    if |src| == 0 {
      assert Body(src) == "";
    } else if |src| <= 3 {
      BodyOfBlock(src);
    } else {
      EncodeIsReference(src[3..]);
      BodyOfBlock(src[..3]);
      BodySplits(src);
      PaddedAfterBlock(EncodeBlock(src[..3]), Body(src[3..]));
    }
  }

  // ---- Decoding undoes encoding --------------------------------------------------------

  lemma Recomposed(x: nat)
    requires x < 0x100_0000
    ensures x / 262144 % 64 * 262144 + x / 4096 % 64 * 4096 + x / 64 % 64 * 64 + x % 64 == x
  {
    assert x / 64 / 64 == x / 4096 && x / 4096 / 64 == x / 262144;
    assert x / 262144 % 64 == x / 262144;
  }

  lemma BytesOfNumber(a: byte, b: byte, c: byte)
    ensures var x := a as nat * 65536 + b as nat * 256 + c;
      x / 65536 % 256 == a && x / 256 % 256 == b && x % 256 == c
  {
    var x := a as nat * 65536 + b as nat * 256 + c;
    assert x / 256 == a as nat * 256 + b && x / 65536 == a as nat;
  }

  lemma PadDigits(k: nat)
    ensures k * 256 % 64 == 0 && k * 65536 % 64 == 0 && k * 65536 / 64 % 64 == 0
  {
    assert k * 65536 / 64 == k * 1024;
  }

  lemma BlockNumbers(src: seq<byte>)
    requires 1 <= |src| <= 3
    ensures var x := BlockBits(src); var ds := Digits(x);
      && ds[0] * 262144 + ds[1] * 4096 + ds[2] * 64 + ds[3] == x
      && [x / 65536 % 256, x / 256 % 256, x % 256][..|src|] == src
      && (|src| <= 2 ==> ds[3] == 0) && (|src| <= 1 ==> ds[2] == 0)
  {
    var x := BlockBits(src);
    Recomposed(x);
    if |src| == 1 {
      PadDigits(src[0]);
    } else if |src| == 2 {
      PadDigits(src[0] as nat * 256 + src[1]);
    }
    BytesOfNumber(src[0], if |src| > 1 then src[1] else 0, if |src| > 2 then src[2] else 0);
  }

  lemma BlockCharacters(src: seq<byte>)
    requires 1 <= |src| <= 3
    ensures var g, ds := EncodeBlock(src), Digits(BlockBits(src));
      && Digit(g[0]) == ds[0] && Digit(g[1]) == ds[1]
      && (if |src| > 1 then Digit(g[2]) == ds[2] else g[2] == '=')
      && (if |src| > 2 then Digit(g[3]) == ds[3] else g[3] == '=')
  {
    var ds := Digits(BlockBits(src));
    BlockSymbol(src, 0);
    BlockSymbol(src, 1);
    if |src| > 1 { BlockSymbol(src, 2); }
    if |src| > 2 { BlockSymbol(src, 3); }
  }

  lemma BlockSymbol(src: seq<byte>, i: nat)
    requires 1 <= |src| <= 3 && i <= |src|
    ensures Digit(EncodeBlock(src)[i]) == Digits(BlockBits(src))[i]
  {
    TablesAreInverse(Digits(BlockBits(src))[i], 'A');
  }

  lemma BlockRoundTrip(src: seq<byte>)
    requires 1 <= |src| <= 3
    ensures var g := EncodeBlock(src);
      GroupAccepted(g, true) && PadCount(g) == 3 - |src| && GroupBytes(g) == src
  {
    BlockNumbers(src);
    BlockCharacters(src);
  }

  lemma DecodeBlock(block: string, rest: string)
    requires |block| == 4 && GroupAccepted(block, rest == "") && Decode(rest).Some?
    ensures Decode(block + rest) == Some(GroupBytes(block) + Decode(rest).value)
  {
    assert (block + rest)[..4] == block && (block + rest)[4..] == rest;
  }

  lemma {:induction false} RoundTrip(src: seq<byte>)
    ensures Decode(Encode(src)) == Some(src)
    decreases |src|
  {
    if src != [] {
      var head, tail := if |src| <= 3 then src else src[..3], if |src| <= 3 then [] else src[3..];
      assert src == head + tail;
      RoundTrip(tail);
      BlockRoundTrip(head);
      assert Encode(src) == EncodeBlock(head) + Encode(tail);
      DecodeBlock(EncodeBlock(head), Encode(tail));
    }
  }

  // ---- Encoding again ------------------------------------------------------------------

  /** The bits of the last symbol that the decoder drops. */
  predicate DroppedBitsZero(text: string)
    requires |text| >= 4
  {
    var n := |text|;
    && (Padding(text) == 1 ==> Digit(text[n - 2]) % 4 == 0)
    && (Padding(text) == 2 ==> Digit(text[n - 3]) % 16 == 0)
  }

  lemma GroupDigits(g: string)
    requires |g| == 4
    ensures Digits(GroupBits(g)) == [Part(g[0]), Part(g[1]), Part(g[2]), Part(g[3])]
  {
    DigitsOf(Part(g[0]), Part(g[1]), Part(g[2]), Part(g[3]));
  }

  lemma DigitsOf(a: nat, b: nat, c: nat, d: nat)
    requires a < 64 && b < 64 && c < 64 && d < 64
    ensures Digits(a * 262144 + b * 4096 + c * 64 + d) == [a, b, c, d]
  {
    var x := a * 262144 + b * 4096 + c * 64 + d;
    assert x / 64 == a * 4096 + b * 64 + c;
    assert x / 4096 == a * 64 + b;
    assert x / 262144 == a;
  }

  /** The bits of the block that the decoded bytes keep: the dropped ones are cleared. */
  function Kept(x: nat, pads: nat): nat {
    if pads == 0 then x else if pads == 1 then x / 256 * 256 else x / 65536 * 65536
  }

  lemma KeptBits(g: string)
    requires |g| == 4 && GroupAccepted(g, true)
    ensures BlockBits(GroupBytes(g)) == Kept(GroupBits(g), PadCount(g))
  {
    RecomposedBytes(GroupBits(g));
  }

  lemma RecomposedBytes(x: nat)
    requires x < 0x100_0000
    ensures x / 65536 % 256 == x / 65536
    ensures x / 65536 * 65536 + x / 256 % 256 * 256 == x / 256 * 256
  {
    assert x / 256 / 256 == x / 65536;
  }

  lemma KeptOne(x: nat)
    ensures Digits(x / 256 * 256)[..3] == [Digits(x)[0], Digits(x)[1], Digits(x)[2] / 4 * 4]
  {
    var q := x / 256;
    assert q * 256 / 262144 == q / 1024 == x / 262144;
    assert q * 256 / 4096 == q / 16 == x / 4096;
    assert q * 256 / 64 == q * 4 && x / 64 / 4 == q;
    LowDigit(x / 64);
  }

  lemma KeptTwo(x: nat)
    ensures Digits(x / 65536 * 65536)[..2] == [Digits(x)[0], Digits(x)[1] / 16 * 16]
  {
    var q := x / 65536;
    assert q * 65536 / 262144 == q / 4 == x / 262144;
    assert q * 65536 / 4096 == q * 16 && x / 4096 / 16 == q;
    LowDigit(x / 4096);
  }

  lemma LowDigit(y: nat)
    ensures y / 4 * 4 % 64 == y % 64 / 4 * 4 && y / 16 * 16 % 64 == y % 64 / 16 * 16
  {
    assert y / 4 == 16 * (y / 64) + y % 64 / 4;
    assert y / 16 == 4 * (y / 64) + y % 64 / 16;
  }

  lemma GroupReencoded(g: string)
    requires |g| == 4 && GroupAccepted(g, true)
    ensures EncodeBlock(GroupBytes(g)) == g <==> DroppedBitsZero(g)
  {
    var x := GroupBits(g);
    GroupWellFormed(g);
    KeptBits(g);
    GroupDigits(g);
    var block := EncodeBlock(GroupBytes(g));
    BlockCharacters(GroupBytes(g));
    SymbolsOfGroup(g, block);
    if PadCount(g) == 1 {
      KeptOne(x);
    } else if PadCount(g) == 2 {
      KeptTwo(x);
    }
  }

  /** Groups whose alphabet characters have the same digits are the same. */
  lemma SymbolsOfGroup(g: string, block: string)
    requires |g| == |block| == 4
    requires forall i | 0 <= i < 4 :: InAlphabet(g[i]) || g[i] == '='
    requires forall i | 0 <= i < 4 :: InAlphabet(block[i]) || block[i] == '='
    ensures block == g <==> forall i | 0 <= i < 4 :: Digit(block[i]) == Digit(g[i])
  {
    forall i | 0 <= i < 4
      ensures block[i] == g[i] <==> Digit(block[i]) == Digit(g[i])
    {
      TablesAreInverse(0, g[i]);
      TablesAreInverse(0, block[i]);
    }
  }

  /**
   * Encoding what was decoded restores an accepted text exactly when the bits its last
   * symbol carries beyond the last byte are zero.
   */
  lemma {:induction false} ReencodedExactlyWhen(text: string)
    requires WellFormed(text) && text != ""
    ensures Decode(text).Some?
    ensures Encode(Decode(text).value) == text <==> DroppedBitsZero(text)
    decreases |text|
  {
    AcceptedExactly(text);
    var g := text[..4];
    if |text| == 4 {
      assert g == text && text[4..] == "";
      GroupWellFormed(text);
      GroupReencoded(text);
      assert Decode(text).value == GroupBytes(text) + [] == GroupBytes(text);
    } else {
      SplitWellFormed(text);
      GroupWellFormed(g);
      AcceptedExactly(text[4..]);
      ReencodedExactlyWhen(text[4..]);
      GroupReencoded(g);
      var bytes, rest := GroupBytes(g), Decode(text[4..]).value;
      assert (bytes + rest)[..3] == bytes && (bytes + rest)[3..] == rest;
      assert text == g + text[4..];
    }
  }
}
