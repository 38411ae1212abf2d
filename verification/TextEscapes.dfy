/** Percent-encoding and backslash escapes over C strings, on values. */
module TextEscapes {

  import opened BitString

  const PERCENT: byte := 37
  const BACKSLASH: byte := 92
  const LETTER_X: byte := 120

  ghost predicate CString(s: seq<byte>) {
    forall i | 0 <= i < |s| :: s[i] != 0
  }

  // ---- Tables -------------------------------------------------------------------------

  function UpperHex(n: byte): byte
    requires n < 16
  {
    if n < 10 then 48 + n else 55 + n
  }

  function LowerHex(n: byte): byte
    requires n < 16
  {
    if n < 10 then 48 + n else 87 + n
  }

  /** The nibble of a hexadecimal digit of either case; 255, not a negative value, otherwise. */
  function HexToNibble(c: byte): byte {
    if 48 <= c <= 57 then c - 48
    else if 65 <= c <= 70 then c - 55
    else if 97 <= c <= 102 then c - 87
    else 255
  }

  /** The high part shifted by four, joined with the low part. */
  function HexPair(high: byte, low: byte): nat
    requires (high < 16 || high == 255) && (low < 16 || low == 255)
  {
    if low < 16 then high as nat * 16 + low else if high < 16 then 255 else 4095
  }

  predicate UriUnescaped(c: byte) {
    48 <= c <= 57 || 65 <= c <= 90 || 97 <= c <= 122 || c == 45 || c == 46 || c == 95
  }

  predicate Printable(c: byte) {
    32 <= c <= 126
  }

  // ---- Encoding into a bounded buffer ---------------------------------------------------

  /** The encodings of the characters, one after the other. */
  function Concat(f: byte -> seq<byte>, s: seq<byte>): seq<byte> {
    if s == [] then [] else f(s[0]) + Concat(f, s[1..])
  }

  /** How many characters an encoder gets through before one does not fit. */
  function Fit(f: byte -> seq<byte>, s: seq<byte>, room: nat): (k: nat)
    ensures k <= |s|
    decreases |s|
  {
    if s == [] || |f(s[0])| > room then 0 else 1 + Fit(f, s[1..], room - |f(s[0])|)
  }

  lemma {:induction false} ConcatTake(f: byte -> seq<byte>, s: seq<byte>, k: nat)
    requires k < |s|
    ensures Concat(f, s[..k + 1]) == Concat(f, s[..k]) + f(s[k])
    decreases k
  {
    if k > 0 {
      ConcatTake(f, s[1..], k - 1);
      assert s[..k + 1][1..] == s[1..][..k] && s[..k][1..] == s[1..][..k - 1];
      assert f(s[0]) + (Concat(f, s[1..][..k - 1]) + f(s[k])) == (f(s[0]) + Concat(f, s[1..][..k - 1])) + f(s[k]);
    } else {
      assert s[..1][1..] == [] && s[..0] == [];
    }
  }

  /** The characters encoded are the longest prefix whose encoding fits. */
  lemma {:induction false} FitIsLongest(f: byte -> seq<byte>, s: seq<byte>, room: nat, j: nat)
    requires j <= |s|
    ensures |Concat(f, s[..j])| <= room <==> j <= Fit(f, s, room)
    decreases |s|
  {
    if j == 0 {
      assert s[..0] == [];
    } else {
      assert s[..j][1..] == s[1..][..j - 1];
      if |f(s[0])| <= room {
        FitIsLongest(f, s[1..], room - |f(s[0])|, j - 1);
      }
    }
  }

  // ---- Percent-encoding -----------------------------------------------------------------

  function UriEscape(c: byte): seq<byte> {
    if UriUnescaped(c) then [c] else [PERCENT, UpperHex(c / 16), UpperHex(c % 16)]
  }

  /** The bytes a decoder emits, and whether it then met an encoded NUL and gave up. */
  datatype Scanned = Scanned(bytes: seq<byte>, aborted: bool)

  function Emit(b: byte, rest: Scanned): Scanned {
    Scanned([b] + rest.bytes, rest.aborted)
  }

  function UriScan(t: seq<byte>): Scanned {
    if t == [] then Scanned([], false)
    else if t[0] == PERCENT && |t| > 2 then
      var value := HexPair(HexToNibble(t[1]), HexToNibble(t[2]));
      if value == 0 then Scanned([], true) else Emit(value % 256, UriScan(t[3..]))
    else Emit(t[0], UriScan(t[1..]))
  }

  lemma HexInverse(c: byte)
    ensures HexPair(HexToNibble(UpperHex(c / 16)), HexToNibble(UpperHex(c % 16))) == c
  {
  }

  lemma {:induction false} UriRoundTrip(s: seq<byte>)
    requires CString(s)
    ensures UriScan(Concat(UriEscape, s)) == Scanned(s, false)
  {
    if s != [] {
      var c, rest := s[0], Concat(UriEscape, s[1..]);
      var t := UriEscape(c) + rest;
      UriRoundTrip(s[1..]);
      HexInverse(c);
      assert t[|UriEscape(c)|..] == rest;
    }
  }

  /**
   * What the encoder leaves in a buffer with `room` for characters always decodes to a
   * prefix of the input, to all of it exactly when the whole encoding fits.
   */
  lemma {:induction false} UriTruncationIsPrefix(s: seq<byte>, room: nat)
    requires CString(s)
    ensures var k := Fit(UriEscape, s, room);
      && UriScan(Concat(UriEscape, s[..k])) == Scanned(s[..k], false)
      && (k == |s| <==> |Concat(UriEscape, s)| <= room)
  {
    UriRoundTrip(s[..Fit(UriEscape, s, room)]);
    FitIsLongest(UriEscape, s, room, |s|);
    assert s[..|s|] == s;
  }

  // ---- Backslash escapes ------------------------------------------------------------------

  datatype EscapeMode = Plainly | Numeric | Named

  function NumericEscape(c: byte): seq<byte> {
    [BACKSLASH, LETTER_X, LowerHex(c / 16), LowerHex(c % 16)]
  }

  /** The letter after the backslash, or zero for a character without a named escape. */
  function EscapeName(c: byte): byte {
    match c
    case 92 => 92
    case 34 => 34
    case 39 => 39
    case 10 => 110
    case 13 => 114
    case 9 => 116
    case _ => 0
  }

  function Escape(c: byte, mode: EscapeMode): (e: seq<byte>)
    ensures |e| > 0
  {
    if mode == Named && EscapeName(c) != 0 then [BACKSLASH, EscapeName(c)]
    else if mode == Plainly || Printable(c) then [c]
    else NumericEscape(c)
  }

  function MapUnescape(c: byte): int {
    match c
    case 110 => 10
    case 114 => 13
    case 116 => 9
    case 92 => 92
    case 34 => 34
    case 39 => 39
    case _ => -1
  }

  /** A hexadecimal escape is consumed from its backslash on, so its `x` counts as a digit. */
  function EscapeScan(t: seq<byte>): Scanned {
    if t == [] then Scanned([], false)
    else if t[0] != BACKSLASH || |t| == 1 then Emit(t[0], EscapeScan(t[1..]))
    else if t[1] == LETTER_X then
      if |t| == 2 then Emit(BACKSLASH, EscapeScan(t[1..]))
      else
        var value := HexPair(HexToNibble(t[1]), HexToNibble(t[2]));
        Emit(value % 256, EscapeScan(t[3..]))
    else if MapUnescape(t[1]) >= 0 then Emit(MapUnescape(t[1]), EscapeScan(t[2..]))
    else Emit(BACKSLASH, EscapeScan(t[1..]))
  }

  predicate Plain(c: byte) {
    Printable(c) || c == 9 || c == 10 || c == 13
  }

  /** What the decoder makes of one named-mode escape. */
  function Unescaped(c: byte): seq<byte> {
    if Plain(c) then [c] else [240 + c / 16, LowerHex(c % 16)]
  }

  lemma ScanNumericEscape(c: byte, rest: seq<byte>)
    ensures EscapeScan(NumericEscape(c) + rest) == Emit(240 + c / 16, Emit(LowerHex(c % 16), EscapeScan(rest)))
  {
    var t := NumericEscape(c) + rest;
    assert t[3..] == [LowerHex(c % 16)] + rest;
    assert ([LowerHex(c % 16)] + rest)[1..] == rest;
    assert HexToNibble(LowerHex(c / 16)) == c / 16;
  }

  lemma ScanNamedEscape(c: byte, rest: seq<byte>)
    requires EscapeName(c) != 0
    ensures EscapeScan([BACKSLASH, EscapeName(c)] + rest) == Emit(c, EscapeScan(rest))
  {
    var t := [BACKSLASH, EscapeName(c)] + rest;
    assert t[2..] == rest && MapUnescape(t[1]) == c;
  }

  lemma NamesArePlain(c: byte)
    requires EscapeName(c) != 0
    ensures Plain(c) && Unescaped(c) == [c] && Escape(c, Named) == [BACKSLASH, EscapeName(c)]
  {
  }

  lemma OthersAreNumeric(c: byte)
    requires EscapeName(c) == 0 && !Printable(c)
    ensures Unescaped(c) == [240 + c / 16, LowerHex(c % 16)] && Escape(c, Named) == NumericEscape(c)
  {
  }

  lemma ScanOneEscape(c: byte, rest: seq<byte>)
    ensures EscapeScan(Escape(c, Named) + rest) ==
            Scanned(Unescaped(c) + EscapeScan(rest).bytes, EscapeScan(rest).aborted)
  {
    if EscapeName(c) != 0 {
      NamesArePlain(c);
      ScanNamedEscape(c, rest);
    } else if Printable(c) {
      ScanOrdinary(c, rest);
    } else {
      OthersAreNumeric(c);
      ScanNumericEscape(c, rest);
      TwoFirst(240 + c / 16, LowerHex(c % 16), EscapeScan(rest).bytes);
    }
  }

  lemma TwoFirst(a: byte, b: byte, rest: seq<byte>)
    ensures [a] + ([b] + rest) == [a, b] + rest
  {
  }

  lemma ScanOrdinary(c: byte, rest: seq<byte>)
    requires c != BACKSLASH
    ensures EscapeScan([c] + rest) == Emit(c, EscapeScan(rest))
  {
    assert ([c] + rest)[1..] == rest;
  }

  function NamedEscape(c: byte): seq<byte> {
    Escape(c, Named)
  }

  lemma {:induction false} UnescapeOfEscape(s: seq<byte>)
    ensures EscapeScan(Concat(NamedEscape, s)) == Scanned(Concat(Unescaped, s), false)
  {
    if s != [] {
      UnescapeOfEscape(s[1..]);
      ScanOneEscape(s[0], Concat(NamedEscape, s[1..]));
    }
  }

  lemma {:induction false} UnescapedExactlyPlain(s: seq<byte>)
    ensures |Concat(Unescaped, s)| >= |s|
    ensures Concat(Unescaped, s) == s <==> forall i | 0 <= i < |s| :: Plain(s[i])
  {
    if s != [] {
      var rest := s[1..];
      UnescapedExactlyPlain(rest);
      assert s == [s[0]] + rest;
      if Plain(s[0]) {
        assert Concat(Unescaped, s)[1..] == Concat(Unescaped, rest);
      }
    }
  }

  /** Unescaping undoes named-mode escaping exactly on printable text, newline, return and tab. */
  lemma {:induction false} UnescapeInvertsExactlyWhen(s: seq<byte>)
    ensures EscapeScan(Concat(NamedEscape, s)) == Scanned(s, false) <==> forall i | 0 <= i < |s| :: Plain(s[i])
  {
    UnescapeOfEscape(s);
    UnescapedExactlyPlain(s);
  }

  lemma {:induction false} EscapeTruncationIsPrefix(s: seq<byte>, room: nat)
    requires forall i | 0 <= i < |s| :: Plain(s[i])
    ensures var k := Fit(NamedEscape, s, room);
      && EscapeScan(Concat(NamedEscape, s[..k])) == Scanned(s[..k], false)
      && (k == |s| <==> |Concat(NamedEscape, s)| <= room)
  {
    UnescapeInvertsExactlyWhen(s[..Fit(NamedEscape, s, room)]);
    FitIsLongest(NamedEscape, s, room, |s|);
    assert s[..|s|] == s;
  }

  /** The smallest failure: an escaped control character comes back as two other bytes. */
  lemma ControlCharacterIsLost()
    ensures EscapeScan(Concat(NamedEscape, [1])) == Scanned([240, 49], false)
  {
    UnescapeOfEscape([1]);
    assert Concat(Unescaped, [1]) == Unescaped(1) + Concat(Unescaped, []);
  }
}
