/** Bit strings and their values: the vocabulary in which RFC 4648 defines its encodings. */
module BitString {

  type byte = n: nat | n < 256

  function Pow2(n: nat): (p: nat)
    ensures p > 0
  {
    if n == 0 then 1 else 2 * Pow2(n - 1)
  }

  /** The value of a bit string, most significant bit first. */
  function Value(bits: seq<bool>): (v: nat)
    ensures v < Pow2(|bits|)
  {
    if bits == [] then 0
    else 2 * Value(bits[..|bits| - 1]) + (if bits[|bits| - 1] then 1 else 0)
  }

  /** The last `w` bits of `v`, most significant first. */
  function BitsOf(v: nat, w: nat): (bits: seq<bool>)
    ensures |bits| == w
    decreases v, w
  {
    if w == 0 then [] else BitsOf(v / 2, w - 1) + [v % 2 == 1]
  }

  /** Shifting right. */
  function Shr(x: nat, n: nat): nat
    decreases x, n
  {
    if n == 0 then x else Shr(x / 2, n - 1)
  }

  function Zeros(n: nat): (bits: seq<bool>)
    ensures |bits| == n
  {
    if n == 0 then [] else Zeros(n - 1) + [false]
  }

  /** Values written one after the other, `w` bits each. */
  function Chunks(vs: seq<nat>, w: nat): seq<bool> {
    if vs == [] then [] else Chunks(vs[..|vs| - 1], w) + BitsOf(vs[|vs| - 1], w)
  }

  /** The values of consecutive groups of `g` bits; zero bits complete the last group. */
  function Groups(bits: seq<bool>, g: nat): (vs: seq<nat>)
    requires g > 0
    ensures forall i | 0 <= i < |vs| :: vs[i] < Pow2(g)
    decreases |bits|
  {
    if bits == [] then []
    else if |bits| <= g then [Value(bits + Zeros(g - |bits|))]
    else [Value(bits[..g])] + Groups(bits[g..], g)
  }

  /** One symbol of an alphabet for each value. */
  function Spell(alphabet: nat -> char, vs: seq<nat>): (text: string)
    ensures |text| == |vs| && forall i | 0 <= i < |vs| :: text[i] == alphabet(vs[i])
  {
    seq(|vs|, i requires 0 <= i < |vs| => alphabet(vs[i]))
  }

  /** The padding of both encodings. */
  function Pads(n: nat): (text: string)
    ensures |text| == n && forall i | 0 <= i < n :: text[i] == '='
  {
    seq(n, _ => '=')
  }

  // ---- Arithmetic -----------------------------------------------------------------

  lemma DivUnique(x: nat, p: nat, q: nat, r: nat)
    requires p > 0 && x == q * p + r && r < p
    ensures x / p == q && x % p == r
  {
    var q1 := x / p;
    assert (q - q1) * p == x % p - r;
    NotWithin(q - q1, p);
  }

  lemma NotWithin(d: int, p: int)
    requires p > 0
    ensures d == 0 || d * p >= p || d * p <= 0 - p
  {
    if d > 0 {
      AtLeast(d, p);
    } else if d < 0 {
      AtLeast(-d, p);
    }
  }

  lemma AtLeast(d: int, p: int)
    requires d > 0 && p > 0
    ensures d * p >= p
  {
    assert (d - 1) * p >= 0;
  }

  lemma {:induction false} Pow2Add(m: nat, n: nat)
    ensures Pow2(m + n) == Pow2(m) * Pow2(n)
    decreases n
  {
    if n > 0 {
      Pow2Add(m, n - 1);
      Doubled(Pow2(m), Pow2(n - 1));
      assert Pow2(m + n) == 2 * Pow2(m + (n - 1));
    }
  }

  lemma Pow2Of32()
    ensures Pow2(32) == 0x1_0000_0000
  {
    Pow2Add(8, 8);
    Pow2Add(16, 16);
    Pow2Of8();
  }

  lemma Doubled(x: nat, p: nat)
    ensures x * (2 * p) == 2 * (x * p)
  {
  }

  lemma Shifted(x: nat, p: nat, v: nat, bit: nat)
    ensures 2 * (x * p + v) + bit == x * (2 * p) + (2 * v + bit)
  {
  }

  // ---- Values ---------------------------------------------------------------------

  lemma {:induction false} ValueConcat(a: seq<bool>, b: seq<bool>)
    ensures Value(a + b) == Value(a) * Pow2(|b|) + Value(b)
  {
    if b == [] {
      assert a + b == a;
    } else {
      var b1 := b[..|b| - 1];
      ValueConcat(a, b1);
      assert (a + b)[..|a + b| - 1] == a + b1;
      Shifted(Value(a), Pow2(|b1|), Value(b1), if b[|b| - 1] then 1 else 0);
    }
  }

  lemma {:induction false} ValueOfBits(v: nat, w: nat)
    requires v < Pow2(w)
    ensures Value(BitsOf(v, w)) == v
    decreases w
  {
    if w > 0 {
      ValueOfBits(v / 2, w - 1);
      assert BitsOf(v, w)[..w - 1] == BitsOf(v / 2, w - 1);
    }
  }

  lemma {:induction false} ValueOfZeros(n: nat)
    ensures Value(Zeros(n)) == 0
  {
    if n > 0 {
      ValueOfZeros(n - 1);
      assert Zeros(n)[..n - 1] == Zeros(n - 1);
    }
  }

  // ---- Chunks and groups ----------------------------------------------------------

  lemma {:induction false} ChunksLength(vs: seq<nat>, w: nat)
    ensures |Chunks(vs, w)| == |vs| * w
  {
    if vs != [] {
      ChunksLength(vs[..|vs| - 1], w);
      assert |vs| * w == (|vs| - 1) * w + w;
    }
  }

  lemma Assoc<T>(a: seq<T>, b: seq<T>, c: seq<T>)
    ensures (a + b) + c == a + (b + c)
  {
  }

  lemma {:induction false} ChunksConcat(a: seq<nat>, b: seq<nat>, w: nat)
    ensures Chunks(a + b, w) == Chunks(a, w) + Chunks(b, w)
  {
    if b == [] {
      assert a + b == a;
    } else {
      var b1, last := b[..|b| - 1], BitsOf(b[|b| - 1], w);
      ChunksConcat(a, b1, w);
      assert (a + b)[..|a + b| - 1] == a + b1;
      Assoc(Chunks(a, w), Chunks(b1, w), last);
    }
  }

  lemma GroupsHead(bits: seq<bool>, g: nat)
    requires g > 0 && |bits| >= g
    ensures Groups(bits, g) == [Value(bits[..g])] + Groups(bits[g..], g)
  {
    if |bits| == g {
      assert bits + Zeros(0) == bits && bits[..g] == bits;
      assert Groups(bits[g..], g) == [];
    }
  }

  lemma ShortGroup(bits: seq<bool>, g: nat)
    requires 0 < |bits| <= g
    ensures Groups(bits, g) == [Value(bits) * Pow2(g - |bits|)]
  {
    ValueConcat(bits, Zeros(g - |bits|));
    ValueOfZeros(g - |bits|);
  }

  /** Groups of a concatenation whose first part is `n` whole groups. */
  lemma {:induction false} GroupsConcat(a: seq<bool>, b: seq<bool>, g: nat, n: nat)
    requires g > 0 && |a| == n * g
    ensures Groups(a + b, g) == Groups(a, g) + Groups(b, g)
    ensures |Groups(a, g)| == n
    decreases n
  {
    if n == 0 {
      assert a + b == b;
    } else {
      assert |a| == (n - 1) * g + g && (n - 1) * g >= 0;
      var a1 := a[g..];
      GroupsConcat(a1, b, g, n - 1);
      assert (a + b)[..g] == a[..g] && (a + b)[g..] == a1 + b;
      GroupsHead(a, g);
      GroupsHead(a + b, g);
    }
  }

  /** Grouping undoes chunking: the two are inverse on values that fit the width. */
  lemma {:induction false} GroupsOfChunks(vs: seq<nat>, w: nat)
    requires w > 0 && forall i | 0 <= i < |vs| :: vs[i] < Pow2(w)
    ensures Groups(Chunks(vs, w), w) == vs
  {
    if vs != [] {
      var init, last := vs[..|vs| - 1], vs[|vs| - 1];
      GroupsOfChunks(init, w);
      ChunksLength(init, w);
      GroupsConcat(Chunks(init, w), BitsOf(last, w), w, |init|);
      GroupsHead(BitsOf(last, w), w);
      assert BitsOf(last, w)[..w] == BitsOf(last, w) && BitsOf(last, w)[w..] == [];
      ValueOfBits(last, w);
      assert vs == init + [last];
    }
  }

  lemma {:induction false} BitsOfValue(bits: seq<bool>)
    ensures BitsOf(Value(bits), |bits|) == bits
  {
    if bits != [] {
      BitsOfValue(bits[..|bits| - 1]);
      assert bits == bits[..|bits| - 1] + [bits[|bits| - 1]];
    }
  }

  lemma {:induction false} ValueOfLowBits(x: nat, n: nat)
    ensures Value(BitsOf(x, n)) == x % Pow2(n)
    decreases n
  {
    if n > 0 {
      ValueOfLowBits(x / 2, n - 1);
      assert BitsOf(x, n)[..n - 1] == BitsOf(x / 2, n - 1);
      HalfMod(x, Pow2(n - 1));
    }
  }

  lemma HalfMod(x: nat, p: nat)
    requires p > 0
    ensures x % (2 * p) == 2 * ((x / 2) % p) + x % 2
  {
    var h := x / 2;
    Doubled(h / p, p);
    DivUnique(x, 2 * p, h / p, 2 * (h % p) + x % 2);
  }

  /** Equal remainders have equal low bits. */
  lemma SameLowBits(x: nat, y: nat, n: nat)
    requires x % Pow2(n) == y % Pow2(n)
    ensures BitsOf(x, n) == BitsOf(y, n)
  {
    ValueOfLowBits(x, n);
    ValueOfLowBits(y, n);
    BitsOfValue(BitsOf(x, n));
    BitsOfValue(BitsOf(y, n));
  }

  lemma {:induction false} SplitBits(x: nat, m: nat, n: nat)
    ensures BitsOf(x, m + n) == BitsOf(Shr(x, n), m) + BitsOf(x, n)
    decreases n
  {
    if n > 0 {
      SplitBits(x / 2, m, n - 1);
      assert BitsOf(x, m + n) == BitsOf(x / 2, m + (n - 1)) + [x % 2 == 1];
    }
  }

  lemma {:induction false} ShrDivides(x: nat, n: nat)
    ensures Shr(x, n) == x / Pow2(n)
    decreases n
  {
    if n > 0 {
      ShrDivides(x / 2, n - 1);
      HalfDiv(x, Pow2(n - 1));
    }
  }

  lemma HalfDiv(x: nat, p: nat)
    requires p > 0
    ensures x / (2 * p) == (x / 2) / p
  {
    var h := x / 2;
    Doubled(h / p, p);
    DivUnique(x, 2 * p, h / p, 2 * (h % p) + x % 2);
  }

  lemma Pow2Of8()
    ensures Pow2(8) == 256
  {
  }

  lemma ShrByte(x: nat, b: byte)
    ensures Shr(x * 256 + b, 8) == x
  {
    ShrDivides(x * 256 + b, 8);
    Pow2Of8();
  }

  lemma LowByte(x: nat, b: byte)
    ensures BitsOf(x * 256 + b, 8) == BitsOf(b, 8)
  {
    Pow2Of8();
    SameLowBits(x * 256 + b, b, 8);
  }

  lemma AppendByte(x: nat, n: nat, b: byte)
    ensures BitsOf(x * 256 + b, n + 8) == BitsOf(x, n) + BitsOf(b, 8)
  {
    SplitBits(x * 256 + b, n, 8);
    ShrByte(x, b);
    LowByte(x, b);
  }

  /** The number whose base-256 digits are the bytes. */
  function Number(bytes: seq<byte>): nat {
    if bytes == [] then 0 else Number(bytes[..|bytes| - 1]) * 256 + bytes[|bytes| - 1]
  }

  lemma {:induction false} BytesAreBits(bytes: seq<byte>)
    ensures Chunks(bytes, 8) == BitsOf(Number(bytes), 8 * |bytes|)
  {
    if bytes != [] {
      var init, last := bytes[..|bytes| - 1], bytes[|bytes| - 1];
      BytesAreBits(init);
      AppendByte(Number(init), 8 * |init|, last);
      assert 8 * |bytes| == 8 * |init| + 8;
    }
  }

  /** The groups of a number's bits, most significant first: each is a shift and a mask. */
  lemma NextGroup(x: nat, g: nat, k: nat)
    requires g > 0
    ensures Groups(BitsOf(x, g + k), g) == [Shr(x, k) % Pow2(g)] + Groups(BitsOf(x, k), g)
  {
    var top := BitsOf(Shr(x, k), g);
    SplitBits(x, g, k);
    ValueOfLowBits(Shr(x, k), g);
    GroupsHead(top + BitsOf(x, k), g);
    assert (top + BitsOf(x, k))[..g] == top && (top + BitsOf(x, k))[g..] == BitsOf(x, k);
  }

  lemma OneGroup(x: nat, g: nat)
    requires g > 0
    ensures Groups(BitsOf(x, g), g) == [x % Pow2(g)]
  {
    NextGroup(x, g, 0);
  }

  /** Grouping loses no bit: writing the groups out again starts with the bits themselves. */
  lemma {:induction false} GroupsKeepBits(bits: seq<bool>, g: nat)
    requires g > 0
    ensures |bits| <= |Chunks(Groups(bits, g), g)| && Chunks(Groups(bits, g), g)[..|bits|] == bits
    decreases |bits|
  {
    if 0 < |bits| <= g {
      var padded := bits + Zeros(g - |bits|);
      BitsOfValue(padded);
      ChunkOfOne(Value(padded), g);
      assert Chunks(Groups(bits, g), g) == padded;
    } else if |bits| > g {
      var head, rest := bits[..g], Groups(bits[g..], g);
      GroupsKeepBits(bits[g..], g);
      ChunksFront(head, rest);
      PrefixConcat(head, bits[g..], Chunks(rest, g));
      assert Chunks(Groups(bits, g), g) == head + Chunks(rest, g);
      assert bits == head + bits[g..];
    }
  }

  lemma ChunksFront(head: seq<bool>, rest: seq<nat>)
    ensures Chunks([Value(head)] + rest, |head|) == head + Chunks(rest, |head|)
  {
    BitsOfValue(head);
    ChunkOfOne(Value(head), |head|);
    ChunksConcat([Value(head)], rest, |head|);
  }

  lemma PrefixConcat<T>(head: seq<T>, tail: seq<T>, whole: seq<T>)
    requires |tail| <= |whole| && whole[..|tail|] == tail
    ensures (head + whole)[..|head| + |tail|] == head + tail
  {
  }

  lemma ChunkOfOne(v: nat, w: nat)
    ensures Chunks([v], w) == BitsOf(v, w)
  {
    assert Chunks([v][..0], w) == [];
  }

  /** The number of groups is the number of bits over `g`, rounded up. */
  lemma {:induction false} GroupsCount(bits: seq<bool>, g: nat)
    requires g > 0
    ensures |bits| <= |Groups(bits, g)| * g < |bits| + g
    decreases |bits|
  {
    if |bits| > g {
      GroupsCount(bits[g..], g);
      var n := |Groups(bits[g..], g)|;
      assert (n + 1) * g == n * g + g;
    }
  }

  /** Taking the low bits of a value that a wider remainder has already reduced. */
  lemma ModMod(x: nat, p: nat, q: nat, m: nat)
    requires p > 0 && m > 0 && m == p * q
    ensures (x % m) % p == x % p
  {
    var k, r := x / m, x % m;
    Associate(k, q, p);
    Distribute(k * q, r / p, p);
    assert x == (k * q + r / p) * p + r % p;
    DivUnique(x, p, k * q + r / p, r % p);
  }

  lemma Associate(x: nat, y: nat, z: nat)
    ensures x * (z * y) == (x * y) * z
  {
  }

  lemma Distribute(x: nat, y: nat, z: nat)
    ensures (x + y) * z == x * z + y * z
  {
  }
}
