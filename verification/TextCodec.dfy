/** The escaping entry points, writing into a caller's buffer. */
module TextCodec {

  import opened BitString
  import opened TextEscapes

  /** A buffer that holds `text` and its terminator. */
  ghost predicate Holds(out: seq<byte>, text: seq<byte>) {
    |text| < |out| && out[..|text|] == text && out[|text|] == 0
  }

  /** An encoder stores the longest prefix of its input whose encoding fits. */
  ghost predicate Encoded(f: byte -> seq<byte>, str: seq<byte>, out: seq<byte>, written: nat)
    requires |out| > 0
  {
    var text := Concat(f, str[..Fit(f, str, |out| - 1)]);
    written == |text| && Holds(out, text)
  }

  /** A decoder stores what fits, and gives up on a NUL met before the buffer is full. */
  ghost predicate Decoded(r: Scanned, out: seq<byte>, written: nat)
    requires |out| > 0
  {
    var room := |out| - 1;
    if |r.bytes| >= room then written == room && Holds(out, r.bytes[..room])
    else if r.aborted then written == 0
    else written == |r.bytes| && Holds(out, r.bytes)
  }

  // ---- Encoders -------------------------------------------------------------------------

  /** Where an encoder is after `read` characters. */
  ghost predicate EncodingAt(f: byte -> seq<byte>, str: seq<byte>, read: nat, out: seq<byte>, written: nat) {
    && read <= |str| && written < |out|
    && out[..written] == Concat(f, str[..read])
    && Fit(f, str, |out| - 1) == read + Fit(f, str[read..], |out| - 1 - written)
  }

  lemma EncodingStarts(f: byte -> seq<byte>, str: seq<byte>, out: seq<byte>)
    requires |out| > 0
    ensures EncodingAt(f, str, 0, out, 0)
  {
    assert str[0..] == str && str[..0] == [];
  }

  lemma EncodingStep(f: byte -> seq<byte>, str: seq<byte>, read: nat, out: seq<byte>, written: nat, out': seq<byte>)
    requires EncodingAt(f, str, read, out, written) && read < |str|
    requires written + |f(str[read])| < |out| == |out'|
    requires out'[..written] == out[..written]
    requires out'[written..written + |f(str[read])|] == f(str[read])
    ensures EncodingAt(f, str, read + 1, out', written + |f(str[read])|)
  {
    var n := |f(str[read])|;
    ConcatTake(f, str, read);
    assert out'[..written + n] == out'[..written] + out'[written..written + n];
    assert str[read..][1..] == str[read + 1..];
  }

  /** Nothing more fits, or nothing is left. */
  lemma EncodingEnds(f: byte -> seq<byte>, str: seq<byte>, read: nat, out: seq<byte>, written: nat)
    requires EncodingAt(f, str, read, out, written) && out[written] == 0
    requires read == |str| || written + |f(str[read])| >= |out|
    ensures Encoded(f, str, out, written)
  {
  }

  method StoreAt(out: array<byte>, at: nat, text: seq<byte>)
    requires at + |text| <= out.Length
    modifies out
    ensures out[..at] == old(out[..at]) && out[at..at + |text|] == text
  {
    for k := 0 to |text|
      invariant forall j | 0 <= j < k :: out[at + j] == text[j]
      invariant forall j | 0 <= j < at :: out[j] == old(out[j])
    {
      out[at + k] := text[k];
    }
  }

  method TextUriEncode(str: seq<byte>, out: array<byte>) returns (written: nat)
    modifies out
    ensures out.Length == 0 ==> written == 0
    ensures out.Length > 0 ==> Encoded(UriEscape, str, out[..], written)
  {
    if out.Length == 0 {
      return 0;
    }
    var read := 0;
    written := 0;
    EncodingStarts(UriEscape, str, out[..]);
    while read < |str|
      invariant EncodingAt(UriEscape, str, read, out[..], written)
    {
      var ch := str[read];
      var text := [ch];
      if UriUnescaped(ch) {
        if written >= out.Length - 1 {
          break;
        }
      } else {
        if written + 3 >= out.Length {
          break;
        }
        text := [PERCENT, UpperHex(ch / 16), UpperHex(ch % 16)];
      }
      ghost var before := out[..];
      StoreAt(out, written, text);
      EncodingStep(UriEscape, str, read, before, written, out[..]);
      written := written + |text|;
      read := read + 1;
    }
    Terminate(UriEscape, str, read, out, written);
  }

  method Terminate(ghost f: byte -> seq<byte>, ghost str: seq<byte>, ghost read: nat, out: array<byte>, written: nat)
    requires EncodingAt(f, str, read, out[..], written)
    requires read == |str| || written + |f(str[read])| >= out.Length
    modifies out
    ensures Encoded(f, str, out[..], written)
  {
    ghost var before := out[..];
    out[written] := 0;
    assert out[..written] == before[..written];
    EncodingEnds(f, str, read, out[..], written);
  }

  /** The character's escape if it fits, otherwise nothing. */
  method AppendEscape(out: array<byte>, start: nat, ch: byte, mode: EscapeMode) returns (written: nat)
    requires start < out.Length
    modifies out
    ensures start + |Escape(ch, mode)| >= out.Length ==> written == start && out[..] == old(out[..])
    ensures start + |Escape(ch, mode)| < out.Length ==>
      && written == start + |Escape(ch, mode)|
      && out[..start] == old(out[..start]) && out[start..written] == Escape(ch, mode)
  {
    if mode == Named && EscapeName(ch) != 0 {
      if start + 2 >= out.Length {
        return start;
      }
      StoreAt(out, start, [BACKSLASH, EscapeName(ch)]);
      return start + 2;
    }
    if mode == Plainly || Printable(ch) {
      if start >= out.Length - 1 {
        return start;
      }
      StoreAt(out, start, [ch]);
      return start + 1;
    }
    if start + 4 >= out.Length {
      return start;
    }
    StoreAt(out, start, NumericEscape(ch));
    return start + 4;
  }

  method TextEscape(str: seq<byte>, out: array<byte>, mode: EscapeMode) returns (written: nat)
    modifies out
    ensures out.Length == 0 ==> written == 0
    ensures out.Length > 0 ==> Encoded((c: byte) => Escape(c, mode), str, out[..], written)
  {
    if out.Length == 0 {
      return 0;
    }
    ghost var f := (c: byte) => Escape(c, mode);
    written := 0;
    var i := 0;
    EncodingStarts(f, str, out[..]);
    while i < |str|
      invariant EncodingAt(f, str, i, out[..], written)
    {
      ghost var buffer := out[..];
      var before := written;
      written := AppendEscape(out, written, str[i], mode);
      if written == before {
        break;
      }
      EncodingStep(f, str, i, buffer, before, out[..]);
      i := i + 1;
      if written >= out.Length - 1 {
        break;
      }
    }
    Terminate(f, str, i, out, written);
  }

  // ---- Decoders -------------------------------------------------------------------------

  /** Where a decoder is: it has emitted `bytes` and has `rest` to read. */
  ghost predicate DecodingAt(whole: Scanned, bytes: seq<byte>, rest: Scanned) {
    whole.bytes == bytes + rest.bytes && whole.aborted == rest.aborted
  }

  method Put(out: array<byte>, at: nat, b: byte, ghost whole: Scanned, ghost rest: Scanned)
    requires at < out.Length && DecodingAt(whole, out[..at], Emit(b, rest))
    modifies out
    ensures DecodingAt(whole, out[..at + 1], rest)
  {
    out[at] := b;
    assert out[..at + 1] == old(out[..at]) + [b];
    assert old(out[..at]) + ([b] + rest.bytes) == out[..at + 1] + rest.bytes;
  }

  method TextUriDecode(str: seq<byte>, out: array<byte>) returns (written: nat)
    modifies out
    ensures out.Length == 0 ==> written == 0
    ensures out.Length > 0 ==> Decoded(UriScan(str), out[..], written)
  {
    if out.Length == 0 {
      return 0;
    }
    ghost var whole := UriScan(str);
    var read := 0;
    written := 0;
    assert str[0..] == str;
    while read < |str| && written < out.Length - 1
      invariant read <= |str| && written < out.Length
      invariant DecodingAt(whole, out[..written], UriScan(str[read..]))
      decreases |str| - read
    {
      if str[read] == PERCENT && read + 2 < |str| {
        var value := HexPair(HexToNibble(str[read + 1]), HexToNibble(str[read + 2]));
        assert str[read..][3..] == str[read + 3..];
        if value == 0 {
          return 0;
        }
        Put(out, written, value % 256, whole, UriScan(str[read + 3..]));
        read := read + 3;
      } else {
        assert str[read..][1..] == str[read + 1..];
        Put(out, written, str[read], whole, UriScan(str[read + 1..]));
        read := read + 1;
      }
      written := written + 1;
    }
    Finish(out, written, whole, UriScan(str[read..]));
  }

  method Finish(out: array<byte>, written: nat, ghost whole: Scanned, ghost rest: Scanned)
    requires written < out.Length && DecodingAt(whole, out[..written], rest)
    requires written == out.Length - 1 || rest == Scanned([], false)
    modifies out
    ensures Decoded(whole, out[..], written)
  {
    ghost var before := out[..written];
    out[written] := 0;
    assert out[..written] == before;
    assert whole.bytes[..written] == before;
  }

  method TextUnescape(str: seq<byte>, out: array<byte>) returns (written: nat)
    modifies out
    ensures out.Length == 0 ==> written == 0
    ensures out.Length > 0 ==> Decoded(EscapeScan(str), out[..], written)
  {
    if out.Length == 0 {
      return 0;
    }
    ghost var whole := EscapeScan(str);
    var read := 0;
    written := 0;
    assert str[0..] == str;
    while read < |str| && written < out.Length - 1
      invariant read <= |str| && written < out.Length
      invariant DecodingAt(whole, out[..written], EscapeScan(str[read..]))
      decreases |str| - read
    {
      var used, b := UnescapeOne(str, read);
      Put(out, written, b, whole, EscapeScan(str[read + used..]));
      read := read + used;
      written := written + 1;
    }
    Finish(out, written, whole, EscapeScan(str[read..]));
  }

  /** The byte at `read`, and how much of the text it takes. */
  method UnescapeOne(str: seq<byte>, read: nat) returns (used: nat, b: byte)
    requires read < |str|
    ensures 0 < used && read + used <= |str|
    ensures EscapeScan(str[read..]) == Emit(b, EscapeScan(str[read + used..]))
  {
    assert str[read..][1..] == str[read + 1..];
    if str[read] != BACKSLASH || read + 1 >= |str| {
      return 1, str[read];
    }
    var next := str[read + 1];
    if next == LETTER_X {
      if read + 2 >= |str| {
        return 1, BACKSLASH;
      }
      assert str[read..][3..] == str[read + 3..];
      return 3, HexPair(HexToNibble(next), HexToNibble(str[read + 2])) % 256;
    }
    if MapUnescape(next) >= 0 {
      assert str[read..][2..] == str[read + 2..];
      return 2, MapUnescape(next);
    }
    return 1, BACKSLASH;
  }
}
