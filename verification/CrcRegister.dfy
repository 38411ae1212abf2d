/**
 A cyclic redundancy check as a shift register of booleans, for any width and polynomial.
 Position 0 is the end that is shifted out and that input bits enter; the polynomial has its last
 bit set. Both checksums of the program are this register with a different width and bit order.
 */
module CrcRegister {

  type Reg = seq<bool>

  predicate IsPoly(p: Reg) { |p| > 0 && p[|p| - 1] }

  function Xor(a: Reg, b: Reg): (r: Reg)
    requires |a| == |b|
    ensures |r| == |a| && forall i | 0 <= i < |r| :: r[i] == (a[i] != b[i])
  {
    if a == [] then [] else [a[0] != b[0]] + Xor(a[1..], b[1..])
  }

  function Shift(p: Reg, r: Reg): (t: Reg)
    requires IsPoly(p) && |r| == |p|
    ensures |t| == |p|
    ensures forall i | 0 <= i < |p| - 1 :: t[i] == (r[i + 1] != (r[0] && p[i]))
    ensures t[|p| - 1] == r[0]
  {
    var m := r[1..] + [false];
    if r[0] then Xor(m, p) else m
  }

  function Enter(r: Reg, b: bool): Reg
    requires r != []
  {
    r[0 := r[0] != b]
  }

  /** The bit-serial check: each bit enters at position 0, then the register shifts. */
  function Feed(p: Reg, r: Reg, bits: seq<bool>): (t: Reg)
    requires IsPoly(p) && |r| == |p|
    ensures |t| == |p|
    decreases |bits|
  {
    if bits == [] then r else Feed(p, Shift(p, Enter(r, bits[0])), bits[1..])
  }

  lemma {:induction false} FeedConcat(p: Reg, r: Reg, a: seq<bool>, b: seq<bool>)
    requires IsPoly(p) && |r| == |p|
    ensures Feed(p, r, a + b) == Feed(p, Feed(p, r, a), b)
    decreases |a|
  {
    if a == [] {
      assert a + b == b;
    } else {
      FeedConcat(p, Shift(p, Enter(r, a[0])), a[1..], b);
      assert (a + b)[1..] == a[1..] + b;
    }
  }

  // ---- Several bits at once -------------------------------------------------------

  function EnterAll(r: Reg, bits: seq<bool>): (t: Reg)
    requires |bits| <= |r|
    ensures |t| == |r| && forall i | 0 <= i < |r| :: t[i] == if i < |bits| then r[i] != bits[i] else r[i]
  {
    Xor(r[..|bits|], bits) + r[|bits|..]
  }

  function Shifts(p: Reg, r: Reg, n: nat): (t: Reg)
    requires IsPoly(p) && |r| == |p|
    ensures |t| == |p|
    decreases n
  {
    if n == 0 then r else Shifts(p, Shift(p, r), n - 1)
  }

  /** Bits entered ahead of a shift arrive one place later when entered after it. */
  lemma ShiftAfterEnter(p: Reg, r: Reg, bits: seq<bool>)
    requires IsPoly(p) && |r| == |p| && 0 < |bits| <= |p|
    ensures Shift(p, EnterAll(r, bits)) == EnterAll(Shift(p, Enter(r, bits[0])), bits[1..])
  {
    var a, b := EnterAll(r, bits), Enter(r, bits[0]);
    var left, right := Shift(p, a), EnterAll(Shift(p, b), bits[1..]);
    assert a[0] == b[0];
    forall i | 0 <= i < |p|
      ensures left[i] == right[i]
    {
      if i < |p| - 1 {
        assert left[i] == (a[i + 1] != (a[0] && p[i])) && Shift(p, b)[i] == (b[i + 1] != (b[0] && p[i]));
      }
    }
  }

  /** Entering a group of bits and then shifting is the bit-serial check of the group. */
  lemma {:induction false} ShiftsIsFeed(p: Reg, r: Reg, bits: seq<bool>)
    requires IsPoly(p) && |r| == |p| && |bits| <= |p|
    ensures Shifts(p, EnterAll(r, bits), |bits|) == Feed(p, r, bits)
    decreases |bits|
  {
    if bits == [] {
      assert EnterAll(r, bits) == r;
    } else {
      ShiftAfterEnter(p, r, bits);
      ShiftsIsFeed(p, Shift(p, Enter(r, bits[0])), bits[1..]);
    }
  }

  // ---- Running backwards ----------------------------------------------------------

  function Unshift(p: Reg, t: Reg): (r: Reg)
    requires IsPoly(p) && |t| == |p|
    ensures |r| == |p|
  {
    if t[|p| - 1] then [true] + Xor(t, p)[..|p| - 1] else [false] + t[..|p| - 1]
  }

  lemma UnshiftAt(p: Reg, t: Reg, i: nat)
    requires IsPoly(p) && |t| == |p| && i < |p|
    ensures Unshift(p, t)[i] == if i == 0 then t[|p| - 1] else t[i - 1] != (t[|p| - 1] && p[i - 1])
  {
  }

  lemma UnshiftInverse(p: Reg, r: Reg)
    requires IsPoly(p) && |r| == |p|
    ensures Unshift(p, Shift(p, r)) == r && Shift(p, Unshift(p, r)) == r
  {
    var t, u := Shift(p, r), Unshift(p, r);
    UnshiftAt(p, r, 0);
    forall i | 0 <= i < |p|
      ensures Unshift(p, t)[i] == r[i] && Shift(p, u)[i] == r[i]
    {
      UnshiftAt(p, t, i);
      if i < |p| - 1 {
        UnshiftAt(p, r, i + 1);
        assert Shift(p, u)[i] == (u[i + 1] != (u[0] && p[i]));
      }
    }
  }

  function Unfeed(p: Reg, t: Reg, bits: seq<bool>): (r: Reg)
    requires IsPoly(p) && |t| == |p|
    ensures |r| == |p|
    decreases |bits|
  {
    if bits == [] then t else Enter(Unshift(p, Unfeed(p, t, bits[1..])), bits[0])
  }

  lemma EnterTwice(r: Reg, b: bool)
    requires |r| > 0
    ensures Enter(Enter(r, b), b) == r
  {
  }

  lemma {:induction false} FeedThenUnfeed(p: Reg, r: Reg, bits: seq<bool>)
    requires IsPoly(p) && |r| == |p|
    ensures Unfeed(p, Feed(p, r, bits), bits) == r
    decreases |bits|
  {
    if bits != [] {
      var fed := Enter(r, bits[0]);
      FeedThenUnfeed(p, Shift(p, fed), bits[1..]);
      UnshiftInverse(p, fed);
      EnterTwice(r, bits[0]);
    }
  }

  lemma FeedInjective(p: Reg, r: Reg, s: Reg, bits: seq<bool>)
    requires IsPoly(p) && |r| == |s| == |p|
    ensures Feed(p, r, bits) == Feed(p, s, bits) ==> r == s
  {
    FeedThenUnfeed(p, r, bits);
    FeedThenUnfeed(p, s, bits);
  }

  // ---- Bursts ---------------------------------------------------------------------

  lemma ShiftIsLinear(p: Reg, r: Reg, s: Reg)
    requires IsPoly(p) && |r| == |s| == |p|
    ensures Xor(Shift(p, r), Shift(p, s)) == Shift(p, Xor(r, s))
  {
    var both := Xor(r, s);
    var left, right := Xor(Shift(p, r), Shift(p, s)), Shift(p, both);
    forall i | 0 <= i < |p|
      ensures left[i] == right[i]
    {
      if i < |p| - 1 {
        assert right[i] == (both[i + 1] != (both[0] && p[i]));
      }
    }
  }

  lemma StepIsLinear(p: Reg, r: Reg, s: Reg, a: bool, b: bool)
    requires IsPoly(p) && |r| == |s| == |p|
    ensures Xor(Shift(p, Enter(r, a)), Shift(p, Enter(s, b))) == Shift(p, Enter(Xor(r, s), a != b))
  {
    ShiftIsLinear(p, Enter(r, a), Enter(s, b));
    assert Xor(Enter(r, a), Enter(s, b)) == Enter(Xor(r, s), a != b);
  }

  /** `d` as a register: its bits first, then zeros. */
  predicate Holds(r: Reg, d: seq<bool>) {
    |d| <= |r| && forall i | 0 <= i < |r| :: r[i] == (i < |d| && d[i])
  }

  /** Two registers that agree after at most a width of input differed by exactly the input difference. */
  lemma {:induction false} AgreeAfter(p: Reg, r: Reg, s: Reg, a: seq<bool>, b: seq<bool>)
    requires IsPoly(p) && |r| == |s| == |p| && |a| == |b| <= |p|
    requires Feed(p, r, a) == Feed(p, s, b)
    ensures Holds(Xor(r, s), Xor(a, b))
    decreases |a|
  {
    if a != [] {
      var r1, s1 := Shift(p, Enter(r, a[0])), Shift(p, Enter(s, b[0]));
      AgreeAfter(p, r1, s1, a[1..], b[1..]);
      StepIsLinear(p, r, s, a[0], b[0]);
      var fed := Enter(Xor(r, s), a[0] != b[0]);
      var d := Xor(a, b);
      assert d[1..] == Xor(a[1..], b[1..]);
      assert Holds(Shift(p, fed), d[1..]);
      assert !fed[0];
      forall i | 0 <= i < |p|
        ensures Xor(r, s)[i] == (i < |d| && d[i])
      {
        if i > 0 {
          assert Shift(p, fed)[i - 1] == fed[i];
          assert i < |d| ==> d[i] == d[1..][i - 1];
        }
      }
    }
  }

  /** A change confined to a stretch no longer than the register always changes the result. */
  lemma BurstDetected(p: Reg, r: Reg, before: seq<bool>, a: seq<bool>, b: seq<bool>, after: seq<bool>)
    requires IsPoly(p) && |r| == |p| && |a| == |b| <= |p| && a != b
    ensures Feed(p, r, before + a + after) != Feed(p, r, before + b + after)
  {
    var s := Feed(p, r, before);
    FeedConcat(p, r, before, a);
    FeedConcat(p, r, before, b);
    FeedConcat(p, r, before + a, after);
    FeedConcat(p, r, before + b, after);
    FeedInjective(p, Feed(p, s, a), Feed(p, s, b), after);
    if Feed(p, s, a) == Feed(p, s, b) {
      AgreeAfter(p, s, s, a, b);
      DifferSomewhere(s, a, b);
    }
  }

  lemma DifferSomewhere(s: Reg, a: seq<bool>, b: seq<bool>)
    requires |a| == |b| <= |s| && Holds(Xor(s, s), Xor(a, b))
    ensures a == b
  {
    forall i | 0 <= i < |a|
      ensures a[i] == b[i]
    {
      assert !Xor(s, s)[i];
    }
  }

  // ---- Checksums that work on bytes and machine words -----------------------------

  function Fold<S, B>(step: (S, B) -> S, s: S, data: seq<B>): S {
    if data == [] then s else step(Fold(step, s, data[..|data| - 1]), data[|data| - 1])
  }

  lemma {:induction false} FoldConcat<S, B>(step: (S, B) -> S, s: S, a: seq<B>, b: seq<B>)
    ensures Fold(step, s, a + b) == Fold(step, Fold(step, s, a), b)
  {
    if b == [] {
      assert a + b == a;
    } else {
      FoldConcat(step, s, a, b[..|b| - 1]);
      assert (a + b)[..|a + b| - 1] == a + b[..|b| - 1];
    }
  }

  /** The same for a checksum that complements its register before and after. */
  lemma FlippedFoldConcat<S(!new), B>(step: (S, B) -> S, flip: S -> S, s: S, a: seq<B>, b: seq<B>)
    requires forall x :: flip(flip(x)) == x
    ensures flip(Fold(step, flip(s), a + b)) == flip(Fold(step, flip(flip(Fold(step, flip(s), a))), b))
  {
    FoldConcat(step, flip(s), a, b);
  }

  /** Running a fold backwards over the message. */
  function Unfold<S, B>(back: (S, B) -> S, s: S, data: seq<B>): S {
    if data == [] then s else Unfold(back, back(s, data[|data| - 1]), data[..|data| - 1])
  }

  lemma {:induction false} FoldAfterUnfold<S(!new), B(!new)>(step: (S, B) -> S, back: (S, B) -> S, s: S, data: seq<B>)
    requires forall x, b :: step(back(x, b), b) == x
    ensures Fold(step, Unfold(back, s, data), data) == s
    decreases |data|
  {
    if data != [] {
      FoldAfterUnfold(step, back, back(s, data[|data| - 1]), data[..|data| - 1]);
    }
  }

  /** The message as a bit stream, in the order in which it meets the register. */
  function Stream<B>(bits: B -> seq<bool>, data: seq<B>): seq<bool> {
    if data == [] then [] else Stream(bits, data[..|data| - 1]) + bits(data[|data| - 1])
  }

  lemma {:induction false} StreamConcat<B>(bits: B -> seq<bool>, a: seq<B>, b: seq<B>)
    ensures Stream(bits, a + b) == Stream(bits, a) + Stream(bits, b)
  {
    if b == [] {
      assert a + b == a;
    } else {
      StreamConcat(bits, a, b[..|b| - 1]);
      assert (a + b)[..|a + b| - 1] == a + b[..|b| - 1];
    }
  }

  /** `step` on words of type `S` is the register: `reg` reads a word, `bits` reads a byte. */
  ghost predicate Implements<S(!new), B(!new)>(p: Reg, reg: S -> Reg, bits: B -> seq<bool>, step: (S, B) -> S) {
    && IsPoly(p)
    && (forall s :: |reg(s)| == |p|)
    && (forall s, t {:trigger reg(s), reg(t)} :: reg(s) == reg(t) ==> s == t)
    && (forall s, b :: reg(step(s, b)) == Feed(p, reg(s), bits(b)))
  }

  lemma {:induction false} FoldIsFeed<S(!new), B(!new)>(
      p: Reg, reg: S -> Reg, bits: B -> seq<bool>, step: (S, B) -> S, s: S, data: seq<B>)
    requires Implements(p, reg, bits, step)
    ensures reg(Fold(step, s, data)) == Feed(p, reg(s), Stream(bits, data))
  {
    if data != [] {
      var before := data[..|data| - 1];
      FoldIsFeed(p, reg, bits, step, s, before);
      FeedConcat(p, reg(s), Stream(bits, before), bits(data[|data| - 1]));
    }
  }

  /** For a fixed message, different start words end in different words. */
  lemma FoldInjective<S(!new), B(!new)>(
      p: Reg, reg: S -> Reg, bits: B -> seq<bool>, step: (S, B) -> S, s: S, t: S, data: seq<B>)
    requires Implements(p, reg, bits, step)
    ensures Fold(step, s, data) == Fold(step, t, data) ==> s == t
  {
    FoldIsFeed(p, reg, bits, step, s, data);
    FoldIsFeed(p, reg, bits, step, t, data);
    FeedInjective(p, reg(s), reg(t), Stream(bits, data));
  }

  /** Messages whose streams differ only in a stretch no longer than the register end in different words. */
  lemma FoldDetectsBurst<S(!new), B(!new)>(
      p: Reg, reg: S -> Reg, bits: B -> seq<bool>, step: (S, B) -> S, s: S, m1: seq<B>, m2: seq<B>,
      before: seq<bool>, a: seq<bool>, b: seq<bool>, after: seq<bool>)
    requires Implements(p, reg, bits, step)
    requires Stream(bits, m1) == before + a + after && Stream(bits, m2) == before + b + after
    requires |a| == |b| <= |p| && a != b
    ensures Fold(step, s, m1) != Fold(step, s, m2)
  {
    FoldIsFeed(p, reg, bits, step, s, m1);
    FoldIsFeed(p, reg, bits, step, s, m2);
    BurstDetected(p, reg(s), before, a, b, after);
  }

  /** A change of one byte is such a stretch. */
  lemma FoldDetectsChange<S(!new), B(!new)>(
      p: Reg, reg: S -> Reg, bits: B -> seq<bool>, step: (S, B) -> S, s: S, x: seq<B>, b: B, c: B, y: seq<B>)
    requires Implements(p, reg, bits, step)
    requires |bits(b)| == |bits(c)| <= |p| && bits(b) != bits(c)
    ensures Fold(step, s, x + [b] + y) != Fold(step, s, x + [c] + y)
  {
    StreamAround(bits, x, b, y);
    StreamAround(bits, x, c, y);
    FoldDetectsBurst(p, reg, bits, step, s, x + [b] + y, x + [c] + y, Stream(bits, x), bits(b), bits(c), Stream(bits, y));
  }

  lemma StreamAround<B>(bits: B -> seq<bool>, x: seq<B>, b: B, y: seq<B>)
    ensures Stream(bits, x + [b] + y) == Stream(bits, x) + bits(b) + Stream(bits, y)
  {
    StreamConcat(bits, x, [b]);
    StreamConcat(bits, x + [b], y);
    assert Stream(bits, [b]) == Stream(bits, []) + bits(b);
  }

  // ---- Reading words bit by bit ---------------------------------------------------

  /** The first `n` bits of `x`: `first` is the bit shifted out next, `rest` the word after that. */
  function Bits<T>(first: T -> bool, rest: T -> T, x: T, n: nat): (r: Reg)
    ensures |r| == n
    decreases n
  {
    if n == 0 then [] else [first(x)] + Bits(first, rest, rest(x), n - 1)
  }

  function After<T>(rest: T -> T, x: T, n: nat): T
    decreases n
  {
    if n == 0 then x else After(rest, rest(x), n - 1)
  }

  lemma {:induction false} AfterTwice<T>(rest: T -> T, x: T, m: nat, n: nat)
    ensures After(rest, After(rest, x, m), n) == After(rest, x, m + n)
    decreases m
  {
    if m > 0 {
      AfterTwice(rest, rest(x), m - 1, n);
    }
  }

  lemma {:induction false} BitsSplit<T>(first: T -> bool, rest: T -> T, x: T, m: nat, n: nat)
    ensures Bits(first, rest, x, m + n) == Bits(first, rest, x, m) + Bits(first, rest, After(rest, x, m), n)
    decreases m
  {
    if m == 0 {
      assert Bits(first, rest, x, m) == [];
    } else {
      BitsSplit(first, rest, rest(x), m - 1, n);
    }
  }

  lemma {:induction false} BitsOfZero<T>(first: T -> bool, rest: T -> T, zero: T, n: nat)
    requires rest(zero) == zero && !first(zero)
    ensures forall i | 0 <= i < n :: !Bits(first, rest, zero, n)[i]
    decreases n
  {
    if n > 0 {
      BitsOfZero(first, rest, zero, n - 1);
    }
  }

  lemma {:induction false} BitsOfXor<T(!new)>(first: T -> bool, rest: T -> T, xor: (T, T) -> T, x: T, y: T, n: nat)
    requires forall u, v {:trigger rest(xor(u, v))} {:trigger first(xor(u, v))} ::
               rest(xor(u, v)) == xor(rest(u), rest(v)) && first(xor(u, v)) == (first(u) != first(v))
    ensures Bits(first, rest, xor(x, y), n) == Xor(Bits(first, rest, x, n), Bits(first, rest, y, n))
    decreases n
  {
    if n > 0 {
      BitsOfXor(first, rest, xor, rest(x), rest(y), n - 1);
    }
  }

  lemma {:induction false} BitsInjective<T(!new)>(first: T -> bool, rest: T -> T, x: T, y: T, n: nat)
    requires forall u, v {:trigger rest(u), rest(v)} :: first(u) == first(v) && rest(u) == rest(v) ==> u == v
    requires Bits(first, rest, x, n) == Bits(first, rest, y, n) && After(rest, x, n) == After(rest, y, n)
    ensures x == y
    decreases n
  {
    if n > 0 {
      assert Bits(first, rest, x, n)[0] == Bits(first, rest, y, n)[0];
      assert Bits(first, rest, x, n)[1..] == Bits(first, rest, y, n)[1..];
      BitsInjective(first, rest, rest(x), rest(y), n - 1);
    }
  }

  // ---- Machine words as registers -------------------------------------------------

  /** How a machine word type is read as a register: its next bit, the word after it, xor and zero. */
  datatype Word<!T> = Word(width: nat, first: T -> bool, rest: T -> T, xor: (T, T) -> T, zero: T)

  ghost predicate IsWord<T(!new)>(w: Word<T>) { Linear(w) && Injective(w) && Ends(w) }

  ghost predicate Linear<T(!new)>(w: Word<T>) {
    forall u, v {:trigger w.rest(w.xor(u, v))} {:trigger w.first(w.xor(u, v))} ::
      w.rest(w.xor(u, v)) == w.xor(w.rest(u), w.rest(v)) && w.first(w.xor(u, v)) == (w.first(u) != w.first(v))
  }

  ghost predicate Injective<T(!new)>(w: Word<T>) {
    forall u, v {:trigger w.rest(u), w.rest(v)} :: w.first(u) == w.first(v) && w.rest(u) == w.rest(v) ==> u == v
  }

  ghost predicate Ends<T(!new)>(w: Word<T>) {
    && w.rest(w.zero) == w.zero && !w.first(w.zero)
    && forall u :: After(w.rest, u, w.width) == w.zero
  }

  function WordReg<T>(w: Word<T>, x: T): (r: Reg)
    ensures |r| == w.width
  {
    Bits(w.first, w.rest, x, w.width)
  }

  function ShiftWord<T>(w: Word<T>, poly: T, x: T): T {
    if w.first(x) then w.xor(w.rest(x), poly) else w.rest(x)
  }

  function ShiftWords<T>(w: Word<T>, poly: T, x: T, n: nat): T
    decreases n
  {
    if n == 0 then x else ShiftWords(w, poly, ShiftWord(w, poly, x), n - 1)
  }

  /** Enter a byte, given as the word `e`, and shift it through. */
  function UpdateWord<T>(w: Word<T>, poly: T, x: T, e: T): T { ShiftWords(w, poly, w.xor(x, e), 8) }

  function UnshiftWords<T>(back: T -> T, x: T, n: nat): T
    decreases n
  {
    if n == 0 then x else back(UnshiftWords(back, x, n - 1))
  }

  lemma {:induction false} ShiftsAfterUnshifts<T(!new)>(w: Word<T>, poly: T, back: T -> T, x: T, n: nat)
    requires forall y :: ShiftWord(w, poly, back(y)) == y
    ensures ShiftWords(w, poly, UnshiftWords(back, x, n), n) == x
    decreases n
  {
    if n > 0 {
      ShiftsAfterUnshifts(w, poly, back, x, n - 1);
    }
  }

  lemma RegInjective<T(!new)>(w: Word<T>, x: T, y: T)
    requires IsWord(w)
    ensures WordReg(w, x) == WordReg(w, y) ==> x == y
  {
    if WordReg(w, x) == WordReg(w, y) {
      BitsInjective(w.first, w.rest, x, y, w.width);
    }
  }

  lemma RegOfRest<T(!new)>(w: Word<T>, x: T)
    requires IsWord(w) && w.width > 0
    ensures WordReg(w, w.rest(x)) == WordReg(w, x)[1..] + [false]
  {
    BitsSplit(w.first, w.rest, w.rest(x), w.width - 1, 1);
    assert After(w.rest, w.rest(x), w.width - 1) == After(w.rest, x, w.width);
    BitsOfZero(w.first, w.rest, w.zero, 1);
    assert WordReg(w, x)[1..] == Bits(w.first, w.rest, w.rest(x), w.width - 1);
  }

  lemma ShiftIsRegister<T(!new)>(w: Word<T>, poly: T, x: T)
    requires IsWord(w) && IsPoly(WordReg(w, poly))
    ensures WordReg(w, ShiftWord(w, poly, x)) == Shift(WordReg(w, poly), WordReg(w, x))
  {
    RegOfRest(w, x);
    RegOfXor(w, w.rest(x), poly);
    assert WordReg(w, x)[0] == w.first(x);
  }

  /** If one shift of the word is one shift of its register, so are many. */
  lemma {:induction false} ShiftsFollow<T(!new)>(w: Word<T>, poly: T, x: T, n: nat)
    requires IsPoly(WordReg(w, poly))
    requires forall y :: WordReg(w, ShiftWord(w, poly, y)) == Shift(WordReg(w, poly), WordReg(w, y))
    ensures WordReg(w, ShiftWords(w, poly, x, n)) == Shifts(WordReg(w, poly), WordReg(w, x), n)
    decreases n
  {
    if n > 0 {
      ShiftsFollow(w, poly, ShiftWord(w, poly, x), n - 1);
    }
  }

  lemma ShiftsIsRegister<T(!new)>(w: Word<T>, poly: T, x: T, n: nat)
    requires IsWord(w) && IsPoly(WordReg(w, poly))
    ensures WordReg(w, ShiftWords(w, poly, x, n)) == Shifts(WordReg(w, poly), WordReg(w, x), n)
  {
    forall y
      ensures WordReg(w, ShiftWord(w, poly, y)) == Shift(WordReg(w, poly), WordReg(w, y))
    {
      ShiftIsRegister(w, poly, y);
    }
    ShiftsFollow(w, poly, x, n);
  }

  lemma EnterIsRegister<T(!new)>(w: Word<T>, x: T, e: T)
    requires IsWord(w) && w.width >= 8 && After(w.rest, e, 8) == w.zero
    ensures WordReg(w, w.xor(x, e)) == EnterAll(WordReg(w, x), Bits(w.first, w.rest, e, 8))
  {
    RegOfXor(w, x, e);
    WordEnds(w, e);
  }

  lemma RegOfXor<T(!new)>(w: Word<T>, x: T, y: T)
    requires Linear(w)
    ensures WordReg(w, w.xor(x, y)) == Xor(WordReg(w, x), WordReg(w, y))
  {
    BitsOfXor(w.first, w.rest, w.xor, x, y, w.width);
  }

  lemma WordEnds<T(!new)>(w: Word<T>, e: T)
    requires Ends(w) && w.width >= 8 && After(w.rest, e, 8) == w.zero
    ensures forall i | 0 <= i < w.width :: WordReg(w, e)[i] == (i < 8 && Bits(w.first, w.rest, e, 8)[i])
  {
    BitsSplit(w.first, w.rest, e, 8, w.width - 8);
    BitsOfZero(w.first, w.rest, w.zero, w.width - 8);
  }

  /** Updating a word with a byte is the bit-serial check of the bits of the byte. */
  lemma UpdateIsFeed<T(!new)>(w: Word<T>, poly: T, x: T, e: T)
    requires IsWord(w) && w.width >= 8 && IsPoly(WordReg(w, poly)) && After(w.rest, e, 8) == w.zero
    ensures WordReg(w, UpdateWord(w, poly, x, e)) ==
            Feed(WordReg(w, poly), WordReg(w, x), Bits(w.first, w.rest, e, 8))
  {
    EnterIsRegister(w, x, e);
    ShiftsIsRegister(w, poly, w.xor(x, e), 8);
    ShiftsIsFeed(WordReg(w, poly), WordReg(w, x), Bits(w.first, w.rest, e, 8));
  }
}
