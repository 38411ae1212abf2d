/** Held file descriptors as text: what init publishes and what a service reads back. */
module HeldFdsSpec {

  import opened Options
  import opened Int32

  const BUFFER_SIZE := 256

  // ---- Numbers ----------------------------------------------------------------------------------

  predicate IsDigit(c: char) {
    '0' <= c <= '9'
  }

  /** The decimal digits of a number. */
  function Decimal(n: nat): (s: string)
    ensures |s| > 0 && forall i | 0 <= i < |s| :: IsDigit(s[i])
  {
    (if n < 10 then "" else Decimal(n / 10)) + ['0' + (n % 10) as char]
  }

  lemma DecimalDigits()
    ensures Decimal(1203) == "1203" && Decimal(0) == "0"
  {
    assert Decimal(12) == "12";
    assert Decimal(120) == "120";
  }

  /** The leading digits, read on from a value. */
  function Leading(s: string, value: nat): nat {
    if s == "" || !IsDigit(s[0]) then value
    else Leading(s[1..], value * 10 + (s[0] as int - '0' as int))
  }

  predicate IsSpace(c: char) {
    c == ' ' || '\t' <= c <= '\r'
  }

  function SkipSpaces(s: string): string {
    if s == "" || !IsSpace(s[0]) then s else SkipSpaces(s[1..])
  }

  /** The number a text starts with, behind white space and a sign; none when out of the range of a long. */
  function StrToL(text: string): Option<int> {
    var s := SkipSpaces(text);
    var negative := s != "" && s[0] == '-';
    var value: int := Leading(if negative || (s != "" && s[0] == '+') then s[1..] else s, 0);
    var signed := if negative then -value else value;
    if -0x8000_0000_0000_0000 <= signed < 0x8000_0000_0000_0000 then Some(signed) else None
  }

  lemma {:induction false} LeadingConcat(a: string, b: string, value: nat)
    requires forall i | 0 <= i < |a| :: IsDigit(a[i])
    ensures Leading(a + b, value) == Leading(b, Leading(a, value))
  {
    if a == "" {
      assert a + b == b;
    } else {
      LeadingConcat(a[1..], b, value * 10 + (a[0] as int - '0' as int));
      assert (a + b)[1..] == a[1..] + b;
    }
  }

  lemma {:induction false} DecimalReadsBack(n: nat)
    ensures Leading(Decimal(n), 0) == n
  {
    var last := ['0' + (n % 10) as char];
    if n >= 10 {
      DecimalReadsBack(n / 10);
      LeadingConcat(Decimal(n / 10), last, 0);
      assert last[1..] == "" && Leading(last, n / 10) == n / 10 * 10 + n % 10;
    } else {
      assert "" + last == last && last[1..] == "";
    }
  }

  lemma DescriptorReadsBack(fd: nat)
    requires fd < 0x8000_0000
    ensures StrToL(Decimal(fd)) == Some(fd) && Wrap32(fd) == fd
  {
    DecimalReadsBack(fd);
    assert IsDigit(Decimal(fd)[0]);
  }

  lemma {:induction false} SkipsBlanks(blanks: string, s: string)
    requires forall i | 0 <= i < |blanks| :: blanks[i] as int == 32 || 9 <= blanks[i] as int <= 13
    requires s != "" && !IsSpace(s[0])
    ensures SkipSpaces(blanks + s) == s
  {
    if blanks == "" {
      assert blanks + s == s;
    } else {
      SkipsBlanks(blanks[1..], s);
      assert (blanks + s)[1..] == blanks[1..] + s;
    }
  }

  lemma LeadingDecimal(n: nat, rest: string)
    requires rest == "" || !IsDigit(rest[0])
    ensures Leading(Decimal(n) + rest, 0) == n && IsDigit((Decimal(n) + rest)[0])
  {
    DecimalReadsBack(n);
    LeadingConcat(Decimal(n), rest, 0);
  }

  /** Behind any blanks and a sign, a number is read up to its last digit, within the range of a long. */
  lemma NumberIsRead(blanks: string, sign: string, n: nat, rest: string)
    requires forall i | 0 <= i < |blanks| :: blanks[i] as int == 32 || 9 <= blanks[i] as int <= 13
    requires sign == "" || sign == "+" || sign == "-"
    requires rest == "" || !('0' <= rest[0] <= '9')
    ensures var value := if sign == "-" then 0 - n else n as int;
      StrToL(blanks + (sign + (Decimal(n) + rest)))
        == if -0x8000_0000_0000_0000 <= value <= 0x7FFF_FFFF_FFFF_FFFF then Some(value) else None
  {
    LeadingDecimal(n, rest);
    var number := Decimal(n) + rest;
    assert sign == "" ==> sign + number == number;
    assert sign != "" ==> (sign + number)[1..] == number;
    SkipsBlanks(blanks, sign + number);
  }

  // ---- Words ------------------------------------------------------------------------------------

  /** The length of the word a text starts with. */
  function WordLength(s: string, del: string): (n: nat)
    ensures n <= |s|
  {
    if s == "" || s[0] in del then 0 else 1 + WordLength(s[1..], del)
  }

  /** The words between delimiters; several of them in a row separate like one. */
  function Words(s: string, del: string): seq<string> {
    if s == "" then []
    else if s[0] in del then Words(s[1..], del)
    else [s[..WordLength(s, del)]] + Words(s[WordLength(s, del)..], del)
  }

  lemma {:induction false} WordLengthAt(w: string, rest: string, del: string)
    requires forall i | 0 <= i < |w| :: w[i] !in del
    requires rest == "" || rest[0] in del
    ensures WordLength(w + rest, del) == |w|
  {
    if w == "" {
      assert w + rest == rest;
    } else {
      WordLengthAt(w[1..], rest, del);
      assert (w + rest)[1..] == w[1..] + rest;
    }
  }

  lemma FirstWord(w: string, rest: string, del: string)
    requires w != "" && forall i | 0 <= i < |w| :: w[i] !in del
    requires rest == "" || rest[0] in del
    ensures Words(w + rest, del) == [w] + Words(rest, del)
  {
    WordLengthAt(w, rest, del);
    assert (w + rest)[..|w|] == w && (w + rest)[|w|..] == rest;
  }

  // ---- Publishing -------------------------------------------------------------------------------

  /** The descriptors that could be duplicated. */
  function Duplicated(dups: seq<int>): (fds: seq<int>)
    ensures forall i | 0 <= i < |fds| :: fds[i] >= 0
  {
    if dups == [] then []
    else Duplicated(dups[..|dups| - 1]) + (if dups[|dups| - 1] >= 0 then [dups[|dups| - 1]] else [])
  }

  ghost predicate Descriptors(fds: seq<int>) {
    forall i | 0 <= i < |fds| :: 0 <= fds[i] < 0x8000_0000
  }

  /** Each number followed by a space. */
  function Text(fds: seq<int>): string {
    if fds == [] then ""
    else Text(fds[..|fds| - 1]) + (if fds[|fds| - 1] < 0 then "" else Decimal(fds[|fds| - 1]) + " ")
  }

  /** The numbers in the words, narrowed to an int, unless one is out of the range of a long. */
  function Numbers(words: seq<string>): Option<seq<int>> {
    if words == [] then Some([])
    else match Numbers(words[..|words| - 1])
      case None => None
      case Some(init) =>
        match StrToL(words[|words| - 1])
        case None => None
        case Some(n) => Some(init + [Wrap32(n)])
  }

  /** What a service reads: nothing when the text does not fit its buffer. */
  function ReadFds(text: string): Option<seq<int>> {
    if |text| >= BUFFER_SIZE - 1 then None else Numbers(Words(text, " "))
  }

  /** Reading fails exactly on a word out of range; every other number keeps its low 32 bits. */
  lemma {:induction false} NumbersAreNarrowed(words: seq<string>)
    ensures Numbers(words) == None <==> exists i | 0 <= i < |words| :: StrToL(words[i]) == None
    ensures Numbers(words).Some? ==>
      && |Numbers(words).value| == |words|
      && forall i | 0 <= i < |words| ::
           && StrToL(words[i]).Some? && -0x8000_0000 <= Numbers(words).value[i] <= 0x7FFF_FFFF
           && (StrToL(words[i]).value - Numbers(words).value[i]) % 0x1_0000_0000 == 0
  {
    if words != [] {
      var init, last := words[..|words| - 1], words[|words| - 1];
      NumbersAreNarrowed(init);
      if StrToL(last).Some? {
        NarrowedNumber(StrToL(last).value);
      } else {
        assert StrToL(words[|words| - 1]) == None;
      }
      assert forall i | 0 <= i < |init| :: words[i] == init[i];
    }
  }

  lemma NarrowedNumber(n: int)
    ensures -0x8000_0000 <= Wrap32(n) <= 0x7FFF_FFFF && (n - Wrap32(n)) % 0x1_0000_0000 == 0
  {
    var k := (n + 0x8000_0000) / 0x1_0000_0000;
    assert n - Wrap32(n) == k * 0x1_0000_0000;
  }

  function Decimals(fds: seq<int>): seq<string>
    requires Descriptors(fds)
  {
    if fds == [] then [] else Decimals(fds[..|fds| - 1]) + [Decimal(fds[|fds| - 1])]
  }

  lemma {:induction false} NumbersOfDecimals(fds: seq<int>)
    requires Descriptors(fds)
    ensures Numbers(Decimals(fds)) == Some(fds)
  {
    if fds != [] {
      var init, last := fds[..|fds| - 1], fds[|fds| - 1];
      NumbersOfDecimals(init);
      DescriptorReadsBack(last);
      NumbersAppended(Decimals(init), Decimal(last), init, last);
      assert fds == init + [last];
    }
  }

  lemma NumbersAppended(words: seq<string>, w: string, init: seq<int>, n: int)
    requires Numbers(words) == Some(init) && StrToL(w) == Some(n)
    ensures Numbers(words + [w]) == Some(init + [Wrap32(n)])
  {
    assert (words + [w])[..|words|] == words;
  }

  /** A text of numbers, each followed by a space, starts with them as words. */
  lemma {:induction false} WordsOfText(fds: seq<int>, rest: string)
    requires Descriptors(fds)
    ensures Words(Text(fds) + rest, " ") == Decimals(fds) + Words(rest, " ")
  {
    if fds == [] {
      assert Text(fds) + rest == rest;
    } else {
      var init, w := fds[..|fds| - 1], Decimal(fds[|fds| - 1]);
      WordsOfText(init, w + (" " + rest));
      Regroup(Text(init), w, " ", rest);
      FirstWord(w, " " + rest, " ");
      SkipSpace(rest);
      assert Decimals(init) + ([w] + Words(rest, " ")) == (Decimals(init) + [w]) + Words(rest, " ");
    }
  }

  lemma Regroup(a: string, b: string, c: string, d: string)
    ensures (a + (b + c)) + d == a + (b + (c + d))
  {
  }

  lemma SkipSpace(rest: string)
    ensures Words(" " + rest, " ") == Words(rest, " ")
  {
    assert (" " + rest)[1..] == rest;
  }

  lemma WordsOfPublished(fds: seq<int>)
    requires Descriptors(fds) && fds != []
    ensures |Text(fds)| > 0 && Words(Text(fds)[..|Text(fds)| - 1], " ") == Decimals(fds)
  {
    var init, w := fds[..|fds| - 1], Decimal(fds[|fds| - 1]);
    WordsOfText(init, w);
    assert Text(fds)[..|Text(fds)| - 1] == Text(init) + w;
    FirstWord(w, "", " ");
    assert w + "" == w;
  }

  lemma {:induction false} TextOfDuplicated(dups: seq<int>)
    ensures Text(Duplicated(dups)) == Text(dups)
  {
    if dups != [] {
      var init := dups[..|dups| - 1];
      TextOfDuplicated(init);
      if dups[|dups| - 1] >= 0 {
        assert Duplicated(dups)[..|Duplicated(init)|] == Duplicated(init);
      } else {
        assert Duplicated(dups) == Duplicated(init);
      }
    }
  }

  lemma {:induction false} DuplicatedAreDescriptors(dups: seq<int>)
    requires forall i | 0 <= i < |dups| :: dups[i] < 0x8000_0000
    ensures Descriptors(Duplicated(dups))
  {
    if dups != [] {
      DuplicatedAreDescriptors(dups[..|dups| - 1]);
    }
  }

  /**
   * Whatever fits the publisher's buffer fits the reader's, and the reader gets exactly the
   * duplicated descriptors, in order.
   */
  lemma HeldFdsReadBack(dups: seq<int>)
    requires forall i | 0 <= i < |dups| :: dups[i] < 0x8000_0000
    requires Duplicated(dups) != [] && |Text(dups)| < BUFFER_SIZE
    ensures |Text(dups)| > 0 && ReadFds(Text(dups)[..|Text(dups)| - 1]) == Some(Duplicated(dups))
  {
    DuplicatedAreDescriptors(dups);
    TextOfDuplicated(dups);
    WordsOfPublished(Duplicated(dups));
    NumbersOfDecimals(Duplicated(dups));
  }
}
