/** The tables of the text codecs spelled out, and what text their encoders produce. */
module TextTables {

  import opened BitString
  import opened TextEscapes
  import Base32
  import Base64Spec

  // ---- Alphabets --------------------------------------------------------------------------

  const UPPER := "ABCDEFGHIJKLMNOPQRSTUVWXYZ"
  const LOWER := "abcdefghijklmnopqrstuvwxyz"

  /** Table 1 of RFC 4648. */
  const BASE64 := UPPER + (LOWER + "0123456789+/")

  /** Table 3 of RFC 4648. */
  const BASE32 := UPPER + "234567"

  lemma UpperCase(d: nat)
    requires d < 26
    ensures Base64Spec.Symbol(d) == Base32.Symbol(d) == UPPER[d]
  {
  }

  lemma LowerCase(d: nat)
    requires d < 26
    ensures Base64Spec.Symbol(26 + d) == LOWER[d]
  {
  }

  lemma DigitsAndMarks(d: nat)
    requires d < 12
    ensures Base64Spec.Symbol(52 + d) == "0123456789+/"[d]
  {
  }

  lemma Base64Symbols(d: nat)
    requires d < 64
    ensures Base64Spec.Symbol(d) == BASE64[d]
  {
    if d < 26 {
      UpperCase(d);
    } else if d < 52 {
      LowerCase(d - 26);
    } else {
      DigitsAndMarks(d - 52);
    }
  }

  lemma DigitOf(d: nat, c: char)
    requires d < 64 && Base64Spec.Symbol(d) == c
    ensures Base64Spec.Digit(c) == d
  {
    Base64Spec.TablesAreInverse(d, c);
  }

  lemma Base64Alphabet(d: nat)
    requires d < 64
    ensures Base64Spec.Symbol(d) == BASE64[d] && Base64Spec.Digit(BASE64[d]) == d
  {
    Base64Symbols(d);
    DigitOf(d, BASE64[d]);
  }

  lemma Base32Alphabet(d: nat)
    requires d < 32
    ensures Base32.Symbol(d) == BASE32[d]
  {
    if d < 26 {
      UpperCase(d);
    }
  }

  // ---- Percent-encoded text -----------------------------------------------------------------

  /** A letter or a digit, or one of three marks. */
  predicate Unreserved(c: byte) {
    'a' <= c as char <= 'z' || 'A' <= c as char <= 'Z' || '0' <= c as char <= '9' || c as char in "-._"
  }

  predicate IsUpperHex(c: byte) {
    c as char in "0123456789ABCDEF"
  }

  /** Unreserved characters and triplets of a percent sign and two digits. */
  predicate UriText(t: seq<byte>) {
    t == [] || (if Unreserved(t[0]) then UriText(t[1..])
                else |t| > 2 && t[0] as char == '%' && IsUpperHex(t[1]) && IsUpperHex(t[2]) && UriText(t[3..]))
  }

  lemma UpperHexDigit(n: byte)
    requires n < 16
    ensures UpperHex(n) == "0123456789ABCDEF"[n] as nat && IsUpperHex(UpperHex(n))
  {
  }

  lemma OneUriCharacter(c: byte)
    ensures if Unreserved(c) then UriEscape(c) == [c]
            else
              && UriEscape(c) == ['%' as nat, "0123456789ABCDEF"[c / 16] as nat, "0123456789ABCDEF"[c % 16] as nat]
              && IsUpperHex(UriEscape(c)[1]) && IsUpperHex(UriEscape(c)[2]) && !Unreserved(UriEscape(c)[0])
  {
    UpperHexDigit(c / 16);
    UpperHexDigit(c % 16);
  }

  /** Whatever is encoded, the text holds nothing but unreserved characters and triplets. */
  lemma {:induction false} EncodedIsUriText(s: seq<byte>)
    ensures UriText(Concat(UriEscape, s))
  {
    if s != [] {
      var e, rest := UriEscape(s[0]), Concat(UriEscape, s[1..]);
      EncodedIsUriText(s[1..]);
      OneUriCharacter(s[0]);
      assert (e + rest)[|e|..] == rest;
    }
  }

  /** A text is left alone exactly when it is all unreserved. */
  lemma {:induction false} UnreservedStandsForItself(s: seq<byte>)
    ensures |Concat(UriEscape, s)| >= |s|
    ensures Concat(UriEscape, s) == s <==> forall i | 0 <= i < |s| :: Unreserved(s[i])
  {
    if s != [] {
      var rest := Concat(UriEscape, s[1..]);
      UnreservedStandsForItself(s[1..]);
      OneUriCharacter(s[0]);
      assert s == [s[0]] + s[1..];
      if Unreserved(s[0]) {
        assert ([s[0]] + rest)[1..] == rest;
      }
    }
  }

  // ---- Backslash escapes ----------------------------------------------------------------------

  /** The characters with an escape of their own, and what it is. */
  lemma NamedEscapes(c: byte)
    ensures Escape(c, Named) ==
      if c as char == '\n' then ['\\' as nat, 'n' as nat]
      else if c as char == '\r' then ['\\' as nat, 'r' as nat]
      else if c as char == '\t' then ['\\' as nat, 't' as nat]
      else if c as char in "\\\"'" then ['\\' as nat, c]
      else Escape(c, Numeric)
  {
  }

  /** From the space to the tilde a character stands for itself; any other gets two digits. */
  lemma NumericEscapes(c: byte)
    ensures Escape(c, Numeric) ==
      if ' ' <= c as char <= '~' then [c]
      else ['\\' as nat, 'x' as nat, "0123456789abcdef"[c / 16] as nat, "0123456789abcdef"[c % 16] as nat]
  {
  }

  // ---- What the decoders make of other text -----------------------------------------------------

  lemma ScanOneUriCharacter(c: byte, rest: seq<byte>)
    requires c != 0
    ensures UriScan(UriEscape(c) + rest) == Emit(c, UriScan(rest))
  {
    HexInverse(c);
    assert (UriEscape(c) + rest)[|UriEscape(c)|..] == rest;
  }

  /** Whatever follows encoded text is decoded on its own. */
  lemma {:induction false} DecodingGoesOn(s: seq<byte>, t: seq<byte>)
    requires CString(s)
    ensures UriScan(Concat(UriEscape, s) + t) == Scanned(s + UriScan(t).bytes, UriScan(t).aborted)
  {
    if s == [] {
      assert Concat(UriEscape, s) + t == t && s + UriScan(t).bytes == UriScan(t).bytes;
    } else {
      DecodingGoesOn(s[1..], t);
      ScanOneUriCharacter(s[0], Concat(UriEscape, s[1..]) + t);
      Regroup(UriEscape(s[0]), Concat(UriEscape, s[1..]), t);
      Regroup([s[0]], s[1..], UriScan(t).bytes);
      assert s == [s[0]] + s[1..];
    }
  }

  lemma Regroup(a: seq<byte>, b: seq<byte>, c: seq<byte>)
    ensures (a + b) + c == a + (b + c)
  {
  }

  lemma OneByteStays(c: byte)
    ensures UriScan([c]) == Scanned([c], false) && EscapeScan([c]) == Scanned([c], false)
  {
    assert [c][1..] == [];
  }

  /** An encoded NUL ends the decoding wherever it stands; a percent sign too short for two digits stays. */
  lemma EncodedNulEndsIt(s: seq<byte>, rest: seq<byte>, c: byte)
    requires CString(s)
    ensures UriScan(Concat(UriEscape, s) + (['%' as nat, '0' as nat, '0' as nat] + rest)) == Scanned(s, true)
    ensures UriScan(Concat(UriEscape, s) + ['%' as nat, c]) == Scanned(s + ['%' as nat, c], false)
  {
    DecodingGoesOn(s, ['%' as nat, '0' as nat, '0' as nat] + rest);
    DecodingGoesOn(s, ['%' as nat, c]);
    OneByteStays(c);
    assert ['%' as nat, c][1..] == [c];
    assert s + [] == s;
  }

  /** A backslash before any other character stays, and so do an unfinished escape and a lone backslash. */
  lemma UnknownEscapesStay(c: byte, rest: seq<byte>)
    requires c as char !in "nrtx\\\"'"
    ensures EscapeScan(['\\' as nat, c] + rest) == Emit('\\' as nat, EscapeScan([c] + rest))
    ensures EscapeScan(['\\' as nat, 'x' as nat]) == Scanned(['\\' as nat, 'x' as nat], false)
    ensures EscapeScan(['\\' as nat]) == Scanned(['\\' as nat], false)
  {
    assert (['\\' as nat, c] + rest)[1..] == [c] + rest;
    OneByteStays('x' as nat);
    OneByteStays('\\' as nat);
    assert ['\\' as nat, 'x' as nat][1..] == ['x' as nat];
  }
}
