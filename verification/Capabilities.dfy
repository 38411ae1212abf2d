/** The capability lists of a service: which are dropped and which are granted. */
module Capabilities {

  const FULL_CAP := 0xFFFF_FFFF
  const CAP_NUM := 2
  const MAX_CAPS := 64

  // ---- Dropping -------------------------------------------------------------------------------

  /** The capabilities below `k` that are not listed, ascending. */
  function Complement(caps: seq<nat>, k: nat): seq<nat> {
    if k == 0 then [] else Complement(caps, k - 1) + (if k - 1 in caps then [] else [k - 1])
  }

  lemma {:induction false} ComplementExactly(caps: seq<nat>, k: nat, c: nat)
    ensures c in Complement(caps, k) <==> c < k && c !in caps
  {
    if k > 0 {
      ComplementExactly(caps, k - 1, c);
    }
  }

  lemma {:induction false} ComplementAscends(caps: seq<nat>, k: nat)
    ensures forall i, j | 0 <= i < j < |Complement(caps, k)| :: Complement(caps, k)[i] < Complement(caps, k)[j]
  {
    if k > 0 {
      ComplementAscends(caps, k - 1);
      var below := Complement(caps, k - 1);
      forall i | 0 <= i < |below|
        ensures below[i] < k - 1
      {
        ComplementExactly(caps, k - 1, below[i]);
      }
    }
  }

  predicate DistinctBelow(caps: seq<nat>, k: nat) {
    (forall i | 0 <= i < |caps| :: caps[i] < k) && forall i, j | 0 <= i < j < |caps| :: caps[i] != caps[j]
  }

  ghost function Listed(caps: seq<nat>, k: nat): set<nat> {
    set c | 0 <= c < k && c in caps
  }

  lemma {:induction false} ComplementCounts(caps: seq<nat>, k: nat)
    ensures |Complement(caps, k)| + |Listed(caps, k)| == k
  {
    if k > 0 {
      ComplementCounts(caps, k - 1);
      if k - 1 in caps {
        assert Listed(caps, k) == Listed(caps, k - 1) + {k - 1};
      } else {
        assert Listed(caps, k) == Listed(caps, k - 1);
      }
    } else {
      assert Listed(caps, 0) == {};
    }
  }

  lemma {:induction false} ListedCounts(caps: seq<nat>, k: nat)
    ensures |Listed(caps, k)| <= |caps|
    ensures |Listed(caps, k)| == |caps| <==> DistinctBelow(caps, k)
  {
    if caps == [] {
      assert Listed(caps, k) == {};
    } else {
      var init, last := caps[..|caps| - 1], caps[|caps| - 1];
      ListedCounts(init, k);
      assert caps == init + [last];
      DistinctAppended(init, last, k);
      ListedAppended(init, last, k);
    }
  }

  lemma DistinctAppended(caps: seq<nat>, c: nat, k: nat)
    ensures DistinctBelow(caps + [c], k) <==> DistinctBelow(caps, k) && c < k && c !in caps
  {
    var more := caps + [c];
    assert more[|caps|] == c && forall i | 0 <= i < |caps| :: more[i] == caps[i];
  }

  lemma ListedAppended(caps: seq<nat>, c: nat, k: nat)
    ensures |Listed(caps + [c], k)| == |Listed(caps, k)| + (if c < k && c !in caps then 1 else 0)
  {
    if c < k && c !in caps {
      assert Listed(caps + [c], k) == Listed(caps, k) + {c};
    } else {
      assert Listed(caps + [c], k) == Listed(caps, k);
    }
  }

  /** The slots allocated for the dropped capabilities are exactly enough when the list is proper. */
  lemma {:induction false} SlotsExactlyWhen(caps: seq<nat>, lastCap: nat)
    ensures |Complement(caps, lastCap + 1)| == lastCap - |caps| + 1 <==> DistinctBelow(caps, lastCap + 1)
    ensures |Complement(caps, lastCap + 1)| >= lastCap - |caps| + 1
  {
    ComplementCounts(caps, lastCap + 1);
    ListedCounts(caps, lastCap + 1);
  }

  /** The entries of the list that name no capability of their own: how many more there are to drop than slots. */
  lemma {:induction false} ExcessExactly(caps: seq<nat>, lastCap: nat)
    ensures |Complement(caps, lastCap + 1)| - (lastCap - |caps| + 1) == |caps| - |Listed(caps, lastCap + 1)|
  {
    ComplementCounts(caps, lastCap + 1);
  }

  /** The full entry, which the parser accepts, is one too many. */
  lemma FullEntryExceeds(lastCap: nat)
    requires lastCap < FULL_CAP
    ensures |Complement([FULL_CAP], lastCap + 1)| == (lastCap - |[FULL_CAP]| + 1) + 1
  {
    ExcessExactly([FULL_CAP], lastCap);
    assert Listed([FULL_CAP], lastCap + 1) == {};
  }

  /** And so is a capability listed twice. */
  lemma RepeatedEntryExceeds(c: nat, lastCap: nat)
    requires c <= lastCap
    ensures |Complement([c, c], lastCap + 1)| == (lastCap - |[c, c]| + 1) + 1
  {
    ExcessExactly([c, c], lastCap);
    assert Listed([c, c], lastCap + 1) == {c};
  }

  function Min(a: nat, b: nat): nat { if a < b then a else b }

  /** Fills the slots with the capabilities to drop, and says how many stores went past them. */
  method GetInvalidCaps(caps: seq<nat>, lastCap: nat, out: array<nat>) returns (overrun: nat)
    modifies out
    ensures var dropped := Complement(caps, lastCap + 1); var n := Min(|dropped|, out.Length);
      out[..n] == dropped[..n] && out[n..] == old(out[n..]) && overrun == |dropped| - n
  {
    var index := 0;
    var flags := false;
    overrun := 0;
    for cap := 0 to lastCap + 1
      invariant index == |Complement(caps, cap)| && overrun == index - Min(index, out.Length)
      invariant out[..Min(index, out.Length)] == Complement(caps, cap)[..Min(index, out.Length)]
      invariant forall k | index <= k < out.Length :: out[k] == old(out[k])
      invariant caps == [] ==> !flags
    {
      flags := Scan(caps, cap, flags);
      if !flags {
        if index < out.Length {
          out[index] := cap;
        } else {
          overrun := overrun + 1;
        }
        index := index + 1;
      }
    }
  }

  /** The capabilities handed to the kernel, up to the first that it refuses. */
  function Accepted(caps: seq<nat>, accepts: nat -> bool): seq<nat> {
    if caps == [] || !accepts(caps[0]) then [] else [caps[0]] + Accepted(caps[1..], accepts)
  }

  /** They are the longest prefix of which the kernel accepts every entry. */
  lemma {:induction false} AcceptedIsLongest(caps: seq<nat>, accepts: nat -> bool)
    ensures var n := |Accepted(caps, accepts)|;
      && n <= |caps| && Accepted(caps, accepts) == caps[..n]
      && (forall i | 0 <= i < n :: accepts(caps[i]))
      && (n == |caps| || !accepts(caps[n]))
  {
    if caps != [] && accepts(caps[0]) {
      AcceptedIsLongest(caps[1..], accepts);
    }
  }

  /**
   Drops what is not listed. The slots are counted by the length of the list, and the stores stay within them
   if and only if the list is distinct and in range; a longer list than there are capabilities gets no slots.
   */
  method DropCapability(caps: seq<nat>, lastCap: nat, allocOk: bool, accepts: nat -> bool)
    returns (dropped: seq<nat>, overrun: nat)
    ensures var slots := lastCap - |caps| + 1; var toDrop := Complement(caps, lastCap + 1);
      if slots < 0 || !allocOk then dropped == [] && overrun == 0
      else
        && slots <= |toDrop| && dropped == Accepted(toDrop[..slots], accepts)
        && overrun == |toDrop| - slots && (overrun == 0 <==> DistinctBelow(caps, lastCap + 1))
  {
    var invalidCnt := lastCap - |caps| + 1;
    dropped, overrun := [], 0;
    if invalidCnt < 0 || !allocOk {
      return;
    }
    SlotsExactlyWhen(caps, lastCap);
    var slots := new nat[invalidCnt](_ => 0);
    overrun := GetInvalidCaps(caps, lastCap, slots);
    assert slots[..] == Complement(caps, lastCap + 1)[..invalidCnt];
    dropped := DropEach(slots, accepts);
  }

  method DropEach(slots: array<nat>, accepts: nat -> bool) returns (dropped: seq<nat>)
    ensures dropped == Accepted(slots[..], accepts)
  {
    dropped := [];
    for i := 0 to slots.Length
      invariant Accepted(slots[..], accepts) == dropped + Accepted(slots[i..], accepts)
    {
      assert slots[i..][1..] == slots[i + 1..];
      if !accepts(slots[i]) {
        assert dropped + [] == dropped;
        return;
      }
      dropped := dropped + [slots[i]];
    }
  }

  method Scan(caps: seq<nat>, cap: nat, before: bool) returns (flags: bool)
    requires caps == [] ==> !before
    ensures flags == (cap in caps)
  {
    flags := before;
    for i := 0 to |caps|
      invariant cap !in caps[..i]
      invariant flags == if i == 0 then before else false
    {
      if cap == caps[i] {
        return true;
      }
      flags := false;
    }
    assert caps[..|caps|] == caps;
  }

  // ---- Granting -------------------------------------------------------------------------------

  /** A word of the kernel's capability sets, one flag a bit. */
  predicate Words(mask: seq<seq<bool>>) {
    |mask| == CAP_NUM && |mask[0]| == 32 && |mask[1]| == 32
  }

  predicate Granted(mask: seq<seq<bool>>, c: nat)
    requires Words(mask) && c < MAX_CAPS
  {
    mask[c / 32][c % 32]
  }

  /** Sets the bit of one capability in its word. */
  function SetBit(mask: seq<seq<bool>>, c: nat): (r: seq<seq<bool>>)
    requires Words(mask) && c < MAX_CAPS
    ensures Words(r) && forall d | 0 <= d < MAX_CAPS :: Granted(r, d) == (d == c || Granted(mask, d))
  {
    mask[c / 32 := mask[c / 32][c % 32 := true]]
  }

  /** The mask passed to the kernel: exactly the listed capabilities, or all of them on the full entry. */
  method CapabilityMask(caps: seq<nat>) returns (mask: seq<seq<bool>>)
    requires forall i | 0 <= i < |caps| :: caps[i] < MAX_CAPS || caps[i] == FULL_CAP
    ensures Words(mask)
    ensures forall d | 0 <= d < MAX_CAPS :: Granted(mask, d) == (d in caps || FULL_CAP in caps)
  {
    mask := [seq(32, _ => false), seq(32, _ => false)];
    for i := 0 to |caps|
      invariant Words(mask) && FULL_CAP !in caps[..i]
      invariant forall d | 0 <= d < MAX_CAPS :: Granted(mask, d) == (d in caps[..i])
    {
      if caps[i] == FULL_CAP {
        mask := [seq(32, _ => true), seq(32, _ => true)];
        return;
      }
      mask := SetBit(mask, caps[i]);
    }
    assert caps[..|caps|] == caps;
  }

  /** On a proper list, each capability is either dropped or granted, never both. */
  lemma {:induction false} DroppedOrGranted(caps: seq<nat>, lastCap: nat, mask: seq<seq<bool>>, c: nat)
    requires lastCap < MAX_CAPS && DistinctBelow(caps, lastCap + 1) && c <= lastCap
    requires Words(mask) && forall d | 0 <= d < MAX_CAPS :: Granted(mask, d) == (d in caps || FULL_CAP in caps)
    ensures c in Complement(caps, lastCap + 1) <==> !Granted(mask, c)
  {
    ComplementExactly(caps, lastCap + 1, c);
  }
}
