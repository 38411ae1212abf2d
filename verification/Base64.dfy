/** The base64 entry points, writing into a caller's buffer. */
module Base64 {

  import opened Options
  import opened BitString
  import opened Base64Spec

  // ---- Encoding ---------------------------------------------------------------------

  lemma FirstBlock(src: seq<byte>)
    requires |src| >= 3
    ensures Encode(src) == EncodeBlock(src[..3]) + Encode(src[3..])
  {
    if |src| == 3 {
      assert src[..3] == src && Encode(src[3..]) == "";
    }
  }

  lemma {:induction false} EncodeConcat(a: seq<byte>, b: seq<byte>)
    requires |a| % 3 == 0
    ensures Encode(a + b) == Encode(a) + Encode(b)
    decreases |a|
  {
    if a == [] {
      assert a + b == b;
    } else {
      EncodeConcat(a[3..], b);
      FirstBlock(a);
      FirstBlock(a + b);
      assert (a + b)[..3] == a[..3] && (a + b)[3..] == a[3..] + b;
      Assoc(EncodeBlock(a[..3]), Encode(a[3..]), Encode(b));
    }
  }

  lemma Sextet(x: nat, i: nat)
    requires i < 4
    ensures Shr(x, 6 * (3 - i)) % 64 == Digits(x)[i]
  {
    Pow2Add(9, 9);
    ShrDivides(x, 6 * (3 - i));
    assert Pow2(12) == 4096 && Pow2(6) == 64 && Pow2(0) == 1;
  }

  lemma BlockSymbolAt(src: seq<byte>, i: nat)
    requires 1 <= |src| <= 3 && i <= |src|
    ensures EncodeBlock(src)[i] == Symbol(Shr(BlockBits(src), 6 * (3 - i)))
  {
    Sextet(BlockBits(src), i);
  }

  method GatherBlock(src: seq<byte>) returns (buffer: nat)
    requires 1 <= |src| <= 3
    ensures buffer == BlockBits(src)
  {
    buffer := 0;
    for i := 0 to |src|
      invariant buffer == Number(src[..i])
    {
      assert src[..i + 1][..i] == src[..i];
      buffer := buffer * 256 + src[i];
    }
    assert src[..|src|] == src;
    NumberOfBlock(src);
    buffer := buffer * (if |src| == 1 then 65536 else if |src| == 2 then 256 else 1);
  }

  method EncodeBlockAt(src: seq<byte>, out: array<char>, at: nat)
    requires 1 <= |src| <= 3 && at + 4 <= out.Length
    modifies out
    ensures out[..at + 4] == old(out[..at]) + EncodeBlock(src)
    ensures forall k | at + 4 <= k < out.Length :: out[k] == old(out[k])
  {
    var buffer := GatherBlock(src);
    for i := 0 to 4
      invariant forall k | 0 <= k < i :: out[at + k] == EncodeBlock(src)[k]
      invariant forall k | 0 <= k < out.Length && !(at <= k < at + i) :: out[k] == old(out[k])
    {
      if i < |src| + 1 {
        BlockSymbolAt(src, i);
        out[at + i] := Symbol(Shr(buffer, 6 * (3 - i)));
      } else {
        out[at + i] := '=';
      }
    }
    assert out[..at + 4] == out[..at] + out[at..at + 4] && out[at..at + 4] == EncodeBlock(src);
  }

  /** Every whole block of three bytes. */
  method EncodeWholeBlocks(src: seq<byte>, out: array<char>) returns (written: nat)
    requires 4 * (|src| / 3) <= out.Length
    modifies out
    ensures written == 4 * (|src| / 3) && out[..written] == Encode(src[..|src| / 3 * 3])
    ensures forall k | written <= k < out.Length :: out[k] == old(out[k])
  {
    written := 0;
    for i := 0 to |src| / 3
      invariant written == 4 * i && out[..written] == Encode(src[..3 * i])
      invariant forall k | written <= k < out.Length :: out[k] == old(out[k])
    {
      var block := src[3 * i..3 * i + 3];
      assert src[..3 * i + 3] == src[..3 * i] + block;
      EncodeConcat(src[..3 * i], block);
      EncodeBlockAt(block, out, written);
      written := written + 4;
    }
  }

  /** The whole text is written exactly when it fits with its terminator; otherwise nothing is. */
  method Base64Encode(src: seq<byte>, out: array<char>) returns (written: nat)
    modifies out
    ensures |Encode(src)| < out.Length ==>
      && written == |Encode(src)| && out[..written] == Encode(src) && out[written] == '\0'
      && forall k | written < k < out.Length :: out[k] == old(out[k])
    ensures |Encode(src)| >= out.Length ==> written == 0 && out[..] == old(out[..])
  {
    if out.Length == 0 {
      return 0;
    }
    if |src| == 0 {
      out[0] := '\0';
      return 0;
    }
    var groupCount, remainder := |src| / 3, |src| % 3;
    var blocks := groupCount + (if remainder != 0 then 1 else 0);
    if blocks > (out.Length - 1) / 4 {
      return 0;
    }
    written := EncodeWholeBlocks(src, out);
    var whole, block := src[..3 * groupCount], src[3 * groupCount..];
    assert src == whole + block;
    EncodeConcat(whole, block);
    if remainder != 0 {
      EncodeBlockAt(block, out, written);
      written := written + 4;
    } else {
      assert block == [] && Encode(whole) + Encode(block) == Encode(whole);
    }
    assert out[..written] == Encode(src);
    out[written] := '\0';
  }

  // ---- Decoding ---------------------------------------------------------------------

  /** The digits of one group, with zeros for its padding, when the group is accepted. */
  method DecodeBase64Group(src: string, offset: nat) returns (ok: bool, group: seq<int>, produced: nat)
    requires offset + 4 <= |src|
    ensures ok == GroupAccepted(src[offset..offset + 4], offset + 4 == |src|)
    ensures ok ==> |group| == 4 && forall k | 0 <= k < 4 :: group[k] == Part(src[offset + k])
    ensures ok ==> produced == 3 - PadCount(src[offset..offset + 4])
  {
    ghost var g := src[offset..offset + 4];
    var padCount := 0;
    group, produced := [], 0;
    for n := 0 to 4
      invariant |group| == n && forall k | 0 <= k < n :: group[k] == Digit(src[offset + k])
      invariant padCount == PadsIn(g, n)
    {
      group := group + [Digit(src[offset + n])];
      if src[offset + n] == '=' {
        padCount := padCount + 1;
      }
    }
    PadsInGroup(g);
    if group[0] < 0 || group[1] < 0 {
      return false, group, produced;
    }
    if padCount == 0 {
      if group[2] < 0 || group[3] < 0 {
        return false, group, produced;
      }
    } else {
      if offset + 4 != |src| {
        return false, group, produced;
      }
      if padCount == 2 {
        if src[offset + 2] != '=' || src[offset + 3] != '=' {
          return false, group, produced;
        }
        group := group[2 := 0][3 := 0];
      } else if padCount == 1 {
        if src[offset + 3] != '=' {
          return false, group, produced;
        }
        if group[2] < 0 {
          return false, group, produced;
        }
        group := group[3 := 0];
      } else {
        return false, group, produced;
      }
    }
    produced := 3 - padCount;
    ok := true;
  }

  ghost function PadsIn(g: string, n: nat): nat
    requires n <= |g|
  {
    if n == 0 then 0 else PadsIn(g, n - 1) + (if g[n - 1] == '=' then 1 else 0)
  }

  lemma PadsInGroup(g: string)
    requires |g| == 4
    ensures PadsIn(g, 4) == PadCount(g)
  {
    assert PadsIn(g, 1) == if g[0] == '=' then 1 else 0;
    assert PadsIn(g, 2) == (if g[0] == '=' then 1 else 0) + (if g[1] == '=' then 1 else 0);
  }

  /** The bytes of one accepted group, appended to the output. */
  method StoreGroup(group: seq<int>, produced: nat, out: array<byte>, at: nat, ghost g: string)
    requires |group| == 4 && |g| == 4 && forall k | 0 <= k < 4 :: group[k] == Part(g[k])
    requires PadCount(g) <= 2 && produced == 3 - PadCount(g) && at + produced <= out.Length
    modifies out
    ensures out[..at + produced] == old(out[..at]) + GroupBytes(g)
    ensures out[at + produced..] == old(out[at + produced..])
  {
    var triple: nat := group[0] * 262144 + group[1] * 4096 + group[2] * 64 + group[3];
    for n := 0 to produced
      invariant forall k | 0 <= k < n :: out[at + k] == GroupBytes(g)[k]
      invariant forall k | 0 <= k < out.Length && !(at <= k < at + n) :: out[k] == old(out[k])
    {
      Octet(triple, n);
      out[at + n] := Shr(triple, 8 * (2 - n)) % 256;
    }
  }

  lemma Octet(x: nat, i: nat)
    requires i < 3
    ensures Shr(x, 8 * (2 - i)) % 256 == [x / 65536 % 256, x / 256 % 256, x % 256][i]
  {
    Pow2Add(8, 8);
    ShrDivides(x, 8 * (2 - i));
    assert Pow2(8) == 256 && Pow2(0) == 1;
  }

  /** What is left of the text decides the result, once the first groups are decoded. */
  ghost function After(done: seq<byte>, rest: string): Option<seq<byte>> {
    match Decode(rest)
    case None => None
    case Some(bytes) => Some(done + bytes)
  }

  lemma AfterGroup(done: seq<byte>, rest: string)
    requires |rest| >= 4
    ensures After(done, rest)
         == if GroupAccepted(rest[..4], |rest| == 4) then After(done + GroupBytes(rest[..4]), rest[4..]) else None
  {
    if GroupAccepted(rest[..4], |rest| == 4) && Decode(rest[4..]).Some? {
      var bytes := Decode(rest[4..]).value;
      assert done + (GroupBytes(rest[..4]) + bytes) == (done + GroupBytes(rest[..4])) + bytes;
    }
  }

  ghost predicate Rejected(result: Option<seq<byte>>, outSize: nat) {
    result.None? || |result.value| > outSize
  }

  /** One group: either it is stored, or the whole text is rejected or too long. */
  method DecodeNext(src: string, i: nat, out: array<byte>, start: nat) returns (ok: bool, written: nat)
    requires i + 4 <= |src| && start <= out.Length
    modifies out
    ensures ok ==> start <= written <= out.Length
    ensures ok ==> After(out[..written], src[i + 4..]) == old(After(out[..start], src[i..]))
    ensures !ok ==> Rejected(old(After(out[..start], src[i..])), out.Length)
  {
    ghost var g := src[i..i + 4];
    assert src[i..][..4] == g && src[i..][4..] == src[i + 4..];
    AfterGroup(out[..start], src[i..]);
    var accepted, group, produced := DecodeBase64Group(src, i);
    if !accepted || start + produced > out.Length {
      return false, start;
    }
    StoreGroup(group, produced, out, start, g);
    return true, start + produced;
  }

  lemma DecodedLength(src: string)
    ensures Decode(src).Some? ==> |src| % 4 == 0 && (src == "" || |Decode(src).value| > 0)
  {
    AcceptedExactly(src);
  }

  /** Every byte of the text when it is well formed and they fit; otherwise zero. */
  method Base64Decode(src: string, out: array<byte>) returns (written: nat)
    modifies out
    ensures !Rejected(Decode(src), out.Length) ==>
      written == |Decode(src).value| && out[..written] == Decode(src).value
    ensures Rejected(Decode(src), out.Length) ==> written == 0
  {
    DecodedLength(src);
    if out.Length == 0 {
      return 0;
    }
    if |src| % 4 != 0 {
      return 0;
    }
    written := 0;
    var i := 0;
    assert src[0..] == src && out[..0] == [];
    if Decode(src).Some? {
      assert [] + Decode(src).value == Decode(src).value;
    }
    while i < |src|
      invariant 0 <= i <= |src| && i % 4 == 0 && written <= out.Length
      invariant Decode(src) == After(out[..written], src[i..])
    {
      var ok, next := DecodeNext(src, i, out, written);
      if !ok {
        return 0;
      }
      written := next;
      i := i + 4;
    }
    assert src[i..] == "" && out[..written] + [] == out[..written];
  }
}
