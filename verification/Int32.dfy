/** Signed 32-bit arithmetic. */
module Int32 {

  const INT_MOD := 0x1_0000_0000

  /** The 32-bit number that an overflowing result leaves. */
  function Wrap32(x: int): (r: int)
    ensures -(INT_MOD / 2) <= r < INT_MOD / 2
    ensures r == x <==> Fits32(x)
  {
    (x + INT_MOD / 2) % INT_MOD - INT_MOD / 2
  }

  predicate Fits32(x: int) {
    -0x8000_0000 <= x < 0x8000_0000
  }

  /** A difference that overflows comes out on the other side. */
  lemma WrapOfDifference(x: int, y: int)
    requires Fits32(x) && Fits32(y)
    ensures !Fits32(x - y) ==> Wrap32(x - y) == if x > y then x - y - INT_MOD else x - y + INT_MOD
  {
    ModShift(x - y + INT_MOD / 2, if x > y then 1 else -1);
  }

  /** Wrapping on the way changes nothing. */
  lemma WrapsOnce(x: int, d: int)
    ensures Wrap32(Wrap32(x) + d) == Wrap32(x + d)
  {
    var m, h := INT_MOD, INT_MOD / 2;
    var k := (x + h) / m;
    assert x + h == k * m + (x + h) % m;
    ModShift(x + d + h, k);
  }

  lemma {:induction false} ModShift(x: int, k: int)
    ensures (x - k * INT_MOD) % INT_MOD == x % INT_MOD
    decreases if k < 0 then -k else k
  {
    if k > 0 {
      ModShift(x - INT_MOD, k - 1);
    } else if k < 0 {
      ModShift(x + INT_MOD, k + 1);
    }
  }
}
