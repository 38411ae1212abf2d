/** The byte ring buffer of init, refined to a bounded byte sequence. */
module RingBuffers {

  import opened BitString

  function Min(a: nat, b: nat): nat {
    if a < b then a else b
  }

  /** The next index: the capacity is taken off at most once. */
  function AdvanceIndex(index: nat, increment: nat, capacity: nat): nat {
    if index + increment < capacity then index + increment else index + increment - capacity
  }

  // ---- Rotated views ------------------------------------------------------------------

  /** The storage read once around, from index `i`. */
  function Rot<T>(s: seq<T>, i: nat): (r: seq<T>)
    requires i <= |s|
    ensures |r| == |s|
  {
    s[i..] + s[..i]
  }

  /** The last `n` elements. */
  function Last<T>(s: seq<T>, n: nat): seq<T>
    requires n <= |s|
  {
    s[|s| - n..]
  }

  /** Reading from further on moves what was skipped to the end. */
  lemma RotAdvance<T>(s: seq<T>, i: nat, n: nat)
    requires i < |s| && n <= |s|
    ensures AdvanceIndex(i, n, |s|) < |s|
    ensures Rot(s, AdvanceIndex(i, n, |s|)) == Rot(s, i)[n..] + Rot(s, i)[..n]
  {
    var j := AdvanceIndex(i, n, |s|);
    if i + n < |s| {
      assert Rot(s, i)[n..] == s[j..] + s[..i];
      assert Rot(s, i)[..n] == s[i..j];
    } else {
      assert Rot(s, i)[n..] == s[j..i];
      assert Rot(s, i)[..n] == s[i..] + s[..j];
    }
  }

  /** Overwriting a stretch at the view's start, then moving past it, appends the stretch. */
  lemma RotOverwrite<T>(s: seq<T>, t: seq<T>, i: nat, chunk: seq<T>)
    requires i < |s| == |t| && i + |chunk| <= |s|
    requires t == s[..i] + chunk + s[i + |chunk|..]
    ensures Rot(t, AdvanceIndex(i, |chunk|, |s|)) == Rot(s, i)[|chunk|..] + chunk
  {
    var n := |chunk|;
    RotAdvance(t, i, n);
    assert Rot(t, i)[..n] == chunk;
    assert Rot(t, i)[n..] == Rot(s, i)[n..];
  }

  /** The remainder by the capacity. */
  function Wrap(x: nat, capacity: nat): (i: nat)
    requires capacity > 0
    ensures i < capacity
    decreases x
  {
    if x < capacity then x else Wrap(x - capacity, capacity)
  }

  /** Advancing by at most the capacity is addition modulo the capacity. */
  lemma {:induction false} AdvanceWraps(x: nat, n: nat, capacity: nat)
    requires capacity > 0 && n <= capacity
    ensures AdvanceIndex(Wrap(x, capacity), n, capacity) == Wrap(x + n, capacity)
    decreases x
  {
    if x >= capacity {
      AdvanceWraps(x - capacity, n, capacity);
      assert x + n - capacity == x - capacity + n;
    }
  }

  lemma StreamStep<T>(view: seq<T>, done: seq<T>, chunk: seq<T>)
    requires |chunk| <= |view|
    ensures Last(view + done, |view|)[|chunk|..] + chunk == Last(view + (done + chunk), |view|)
  {
  }

  /** Only the end of a long stream matters. */
  lemma LastOfLast<T>(junk: seq<T>, s: seq<T>, m: nat, n: nat)
    requires n <= |s| && n <= m <= |junk + s|
    ensures Last(Last(junk + s, m), n) == Last(s, n)
  {
  }

  /** The elements that end where the view starts are the end of the view. */
  lemma EndOfView<T>(s: seq<T>, i: nat, n: nat)
    requires i < |s| && n <= |s|
    ensures AdvanceIndex(i, n, |s|) < |s|
    ensures Rot(s, i)[..n] == Last(Rot(s, AdvanceIndex(i, n, |s|)), n)
  {
    RotAdvance(s, i, n);
  }

  /** What a valid ring holds after `data` went in at its write index. */
  lemma ContentsAfter<T>(s: seq<T>, r: nat, n: nat, data: seq<T>, t: seq<T>, r': nat, n': nat)
    requires r < |s| == |t| && n <= |s| && r' < |t| && n' <= |t| && n' <= n + |data|
    requires AdvanceIndex(r, n, |s|) < |s| && AdvanceIndex(r', n', |t|) < |t|
    requires Rot(t, AdvanceIndex(r', n', |t|)) == Last(Rot(s, AdvanceIndex(r, n, |s|)) + data, |s|)
    ensures Rot(t, r')[..n'] == Last(Rot(s, r)[..n] + data, n')
  {
    RotAdvance(s, r, n);
    EndOfView(t, r', n');
    var junk, held := Rot(s, r)[n..], Rot(s, r)[..n];
    assert (junk + held) + data == junk + (held + data);
    LastOfLast(junk, held + data, |s|, n');
  }

  /** What it holds when the data fits. */
  lemma ContentsGrow<T>(s: seq<T>, r: nat, n: nat, data: seq<T>, t: seq<T>)
    requires r < |s| == |t| && n + |data| <= |s|
    requires AdvanceIndex(r, n, |s|) < |s| && AdvanceIndex(r, n + |data|, |t|) < |t|
    requires Rot(t, AdvanceIndex(r, n + |data|, |t|)) == Last(Rot(s, AdvanceIndex(r, n, |s|)) + data, |s|)
    ensures Rot(t, r)[..n + |data|] == Rot(s, r)[..n] + data
  {
    ContentsAfter(s, r, n, data, t, r, n + |data|);
    assert |Rot(s, r)[..n] + data| == n + |data|;
  }

  /** Where the indices are after `length` more bytes. */
  lemma IndicesAfter(r: nat, n: nat, length: nat, capacity: nat)
    requires r < capacity && n <= capacity
    ensures AdvanceIndex(r, n, capacity) < capacity
    ensures Wrap(AdvanceIndex(r, n, capacity) + length, capacity) == Wrap(r + n + length, capacity)
    ensures n + length <= capacity ==> Wrap(r + n + length, capacity) == AdvanceIndex(r, n + length, capacity)
  {
    if r + n >= capacity {
      assert r + n + length - capacity == AdvanceIndex(r, n, capacity) + length;
    }
  }

  /** Making room moves the read index onto the write index, or out of the storage. */
  lemma IndicesAfterOverrun(r: nat, n: nat, length: nat, capacity: nat)
    requires r < capacity && n <= capacity < n + length
    ensures var r' := AdvanceIndex(r, n + length - capacity, capacity);
      && (r' < capacity <==> r + n + length < 3 * capacity)
      && (r' < capacity ==> r' == Wrap(r + n + length, capacity) == AdvanceIndex(r', capacity, capacity))
  {
    assert r + n + length >= capacity;
    assert Wrap(r + n + length, capacity) == Wrap(r + n + length - capacity, capacity);
  }

  /** One chunk of a copy that goes round the storage. */
  lemma CopyStep<T>(view: seq<T>, data: seq<T>, done: nat, s: seq<T>, t: seq<T>, i: nat, n: nat)
    requires i < |s| == |t| == |view| && done + n <= |data| && i + n <= |s|
    requires Rot(s, i) == Last(view + data[..done], |view|)
    requires t == s[..i] + data[done..done + n] + s[i + n..]
    ensures AdvanceIndex(i, n, |s|) < |s|
    ensures Rot(t, AdvanceIndex(i, n, |s|)) == Last(view + data[..done + n], |view|)
  {
    var chunk := data[done..done + n];
    RotOverwrite(s, t, i, chunk);
    StreamStep(view, data[..done], chunk);
    assert data[..done + n] == data[..done] + chunk;
  }

  lemma CopyOutStep<T>(s: seq<T>, start: nat, total: nat, n: nat)
    requires start < |s| && total + n <= |s|
    requires AdvanceIndex(start, total, |s|) + n <= |s|
    ensures var i := AdvanceIndex(start, total, |s|);
      && s[i..i + n] == Rot(s, start)[total..total + n]
      && AdvanceIndex(i, n, |s|) == AdvanceIndex(start, total + n, |s|)
  {
  }

  /** The sequence after a write, seen from outside. */
  function AfterWrite<T>(held: seq<T>, data: seq<T>, capacity: nat, overwrite: bool): seq<T>
    requires |held| <= capacity
  {
    if !overwrite then held + data[..Min(|data|, capacity - |held|)]
    else Last(held + data, Min(|held| + |data|, capacity))
  }

  /** Where reading starts after a write: past the bytes that gave way. */
  function ReadIndexAfter(readIndex: nat, size: nat, length: nat, capacity: nat, overwrite: bool): nat {
    if overwrite && size + length > capacity then AdvanceIndex(readIndex, size + length - capacity, capacity)
    else readIndex
  }

  // ---- Runs ------------------------------------------------------------------------------

  datatype Op = Put(data: seq<byte>) | Take(maxLength: nat)

  /** What is held, where reading starts, and everything accepted and delivered so far. */
  datatype Trace = Trace(held: seq<byte>, readIndex: nat, accepted: seq<byte>, delivered: seq<byte>)

  function Step(t: Trace, op: Op, capacity: nat, overwrite: bool): (t': Trace)
    requires |t.held| <= capacity
    ensures |t'.held| <= capacity
  {
    match op
    case Put(data) =>
      var taken := if overwrite then data else data[..Min(|data|, capacity - |t.held|)];
      Trace(AfterWrite(t.held, data, capacity, overwrite),
            ReadIndexAfter(t.readIndex, |t.held|, |data|, capacity, overwrite), t.accepted + taken, t.delivered)
    case Take(maxLength) =>
      var n := Min(maxLength, |t.held|);
      Trace(t.held[n..], AdvanceIndex(t.readIndex, n, capacity), t.accepted, t.delivered + t.held[..n])
  }

  function Run(ops: seq<Op>, capacity: nat, overwrite: bool): (t: Trace)
    ensures |t.held| <= capacity
  {
    if ops == [] then Trace([], 0, [], [])
    else Step(Run(ops[..|ops| - 1], capacity, overwrite), ops[|ops| - 1], capacity, overwrite)
  }

  /** An overwriting write does not carry the read index round twice. */
  predicate Fits(t: Trace, op: Op, capacity: nat, overwrite: bool) {
    op.Put? && overwrite ==> t.readIndex + |t.held| + |op.data| < 3 * capacity
  }

  predicate Legal(ops: seq<Op>, capacity: nat, overwrite: bool) {
    ops == [] ||
    (Legal(ops[..|ops| - 1], capacity, overwrite) &&
     Fits(Run(ops[..|ops| - 1], capacity, overwrite), ops[|ops| - 1], capacity, overwrite))
  }

  predicate InOrder(t: Trace, overwrite: bool) {
    && |t.held| <= |t.accepted| && t.held == Last(t.accepted, |t.held|)
    && (!overwrite ==> t.accepted == t.delivered + t.held)
  }

  lemma SuffixGrows<T>(older: seq<T>, held: seq<T>, taken: seq<T>, n: nat)
    requires n <= |held + taken|
    ensures Last((older + held) + taken, n) == Last(held + taken, n)
  {
    assert (older + held) + taken == older + (held + taken);
  }

  lemma SplitAtHeld<T>(accepted: seq<T>, held: seq<T>)
    requires |held| <= |accepted| && held == Last(accepted, |held|)
    ensures accepted == accepted[..|accepted| - |held|] + held
  {
  }

  lemma PutKeepsOrder(t: Trace, data: seq<byte>, capacity: nat, overwrite: bool)
    requires |t.held| <= capacity && InOrder(t, overwrite)
    ensures InOrder(Step(t, Put(data), capacity, overwrite), overwrite)
  {
    var older := t.accepted[..|t.accepted| - |t.held|];
    SplitAtHeld(t.accepted, t.held);
    if overwrite {
      SuffixGrows(older, t.held, data, Min(|t.held| + |data|, capacity));
    } else {
      var taken := data[..Min(|data|, capacity - |t.held|)];
      SuffixGrows(older, t.held, taken, |t.held + taken|);
      assert Last(t.held + taken, |t.held + taken|) == t.held + taken;
      assert (t.delivered + t.held) + taken == t.delivered + (t.held + taken);
    }
  }

  lemma TakeKeepsOrder(t: Trace, maxLength: nat, capacity: nat, overwrite: bool)
    requires |t.held| <= capacity && InOrder(t, overwrite)
    ensures InOrder(Step(t, Take(maxLength), capacity, overwrite), overwrite)
  {
    var n := Min(maxLength, |t.held|);
    assert t.held == t.held[..n] + t.held[n..];
    assert t.delivered + (t.held[..n] + t.held[n..]) == (t.delivered + t.held[..n]) + t.held[n..];
  }

  lemma StepKeepsIndex(t: Trace, op: Op, capacity: nat, overwrite: bool)
    requires |t.held| <= capacity && t.readIndex < capacity && Fits(t, op, capacity, overwrite)
    ensures Step(t, op, capacity, overwrite).readIndex < capacity
  {
  }

  /**
   * First in, first out over every run that stays in the storage: what is held is the newest part of what
   * was accepted, and without overwriting nothing is lost, repeated or reordered.
   */
  lemma {:induction false} FirstInFirstOut(ops: seq<Op>, capacity: nat, overwrite: bool)
    requires capacity > 0 && Legal(ops, capacity, overwrite)
    ensures InOrder(Run(ops, capacity, overwrite), overwrite) && Run(ops, capacity, overwrite).readIndex < capacity
  {
    if ops != [] {
      FirstInFirstOut(ops[..|ops| - 1], capacity, overwrite);
      var t := Run(ops[..|ops| - 1], capacity, overwrite);
      StepKeepsIndex(t, ops[|ops| - 1], capacity, overwrite);
      match ops[|ops| - 1]
      case Put(data) => PutKeepsOrder(t, data, capacity, overwrite);
      case Take(maxLength) => TakeKeepsOrder(t, maxLength, capacity, overwrite);
    }
  }

  /**
   * After any run, a write accepts everything when overwriting, and otherwise all that there is room for; the
   * ring then holds as much as it can. A read delivers the oldest bytes, as many as asked for or as there are.
   */
  lemma {:induction false} OpMovesAllItCan(ops: seq<Op>, op: Op, capacity: nat, overwrite: bool)
    ensures var t, t' := Run(ops, capacity, overwrite), Run(ops + [op], capacity, overwrite);
      match op
      case Put(data) =>
        && t'.delivered == t.delivered && t.accepted <= t'.accepted <= t.accepted + data
        && |t'.accepted| - |t.accepted| ==
             (if overwrite || |t.held| + |data| <= capacity then |data| else capacity - |t.held|)
        && |t'.held| == (if |t.held| + |data| <= capacity then |t.held| + |data| else capacity)
      case Take(maxLength) =>
        && t'.accepted == t.accepted && t.delivered <= t'.delivered <= t.delivered + t.held
        && t'.delivered + t'.held == t.delivered + t.held
        && |t'.delivered| - |t.delivered| == (if maxLength <= |t.held| then maxLength else |t.held|)
  {
    assert (ops + [op])[..|ops|] == ops;
    var t := Run(ops, capacity, overwrite);
    if op.Take? {
      var n := Min(op.maxLength, |t.held|);
      assert t.held == t.held[..n] + t.held[n..];
      assert t.delivered + (t.held[..n] + t.held[n..]) == (t.delivered + t.held[..n]) + t.held[n..];
    }
  }

  /** Writes no longer than the capacity always fit, and so does everything without overwriting. */
  lemma {:induction false} ShortWritesFit(ops: seq<Op>, capacity: nat, overwrite: bool)
    requires capacity > 0 && (overwrite ==> forall op | op in ops && op.Put? :: |op.data| <= capacity)
    ensures Legal(ops, capacity, overwrite)
  {
    if ops != [] {
      ShortWritesFit(ops[..|ops| - 1], capacity, overwrite);
      FirstInFirstOut(ops[..|ops| - 1], capacity, overwrite);
      assert ops[|ops| - 1] in ops;
    }
  }

  /** The smallest write that does not fit. */
  lemma LongWriteLeavesStorage(a: byte, b: byte, c: byte)
    ensures Legal([Put([a])], 1, true) && !Legal([Put([a]), Put([b, c])], 1, true)
  {
    assert [Put([a])][..0] == [] && [Put([a]), Put([b, c])][..1] == [Put([a])];
    ShortWritesFit([Put([a])], 1, true);
    assert Run([Put([a])], 1, true).held == [a] && Run([Put([a])], 1, true).readIndex == 0;
  }

  lemma {:induction false} LegalPrefix(ops: seq<Op>, i: nat, capacity: nat, overwrite: bool)
    requires i <= |ops| && Legal(ops, capacity, overwrite)
    ensures Legal(ops[..i], capacity, overwrite)
  {
    if i == |ops| {
      assert ops[..i] == ops;
    } else {
      LegalPrefix(ops[..|ops| - 1], i, capacity, overwrite);
      assert ops[..|ops| - 1][..i] == ops[..i];
    }
  }

  // ---- The buffer ----------------------------------------------------------------------

  class RingBuffer {
    const buffer: array<byte>
    const isOverwrite: bool
    var readIndex: nat
    var writeIndex: nat
    var dataSize: nat
    var isFull: bool
    var overflowCount: nat
    var underflowCount: nat

    ghost predicate Valid()
      reads this
    {
      && readIndex < buffer.Length && writeIndex < buffer.Length && dataSize <= buffer.Length
      && writeIndex == AdvanceIndex(readIndex, dataSize, buffer.Length)
      && (isFull <==> dataSize == buffer.Length)
    }

    ghost function Contents(): seq<byte>
      requires readIndex <= buffer.Length && dataSize <= buffer.Length
      reads this, buffer
    {
      Rot(buffer[..], readIndex)[..dataSize]
    }

    constructor (capacity: nat, allowOverwrite: bool)
      requires capacity > 0
      ensures Valid() && fresh(buffer) && buffer.Length == capacity && isOverwrite == allowOverwrite
      ensures Contents() == [] && overflowCount == underflowCount == 0
    {
      buffer := new byte[capacity](_ => 0);
      isOverwrite := allowOverwrite;
      readIndex, writeIndex, dataSize, isFull := 0, 0, 0, false;
      overflowCount, underflowCount := 0, 0;
    }

    /** Copies the data in at the write index, going round as often as needed. */
    method CopyIn(data: seq<byte>)
      requires writeIndex < buffer.Length
      modifies buffer, this`writeIndex
      ensures writeIndex == Wrap(old(writeIndex) + |data|, buffer.Length)
      ensures Rot(buffer[..], writeIndex) == Last(old(Rot(buffer[..], writeIndex)) + data, buffer.Length)
    {
      var written := 0;
      ghost var view, start := Rot(buffer[..], writeIndex), writeIndex;
      while written < |data|
        invariant 0 <= written <= |data| && writeIndex == Wrap(start + written, buffer.Length)
        invariant Rot(buffer[..], writeIndex) == Last(view + data[..written], buffer.Length)
      {
        var spaceToEnd := buffer.Length - writeIndex;
        var chunkSize := Min(|data| - written, spaceToEnd);
        ghost var before := buffer[..];
        CopyChunk(data[written..written + chunkSize]);
        CopyStep(view, data, written, before, buffer[..], writeIndex, chunkSize);
        AdvanceWraps(start + written, chunkSize, buffer.Length);
        writeIndex := AdvanceIndex(writeIndex, chunkSize, buffer.Length);
        written := written + chunkSize;
      }
      assert data[..written] == data;
    }

    method CopyChunk(chunk: seq<byte>)
      requires writeIndex + |chunk| <= buffer.Length
      modifies buffer
      ensures buffer[..] == old(buffer[..writeIndex]) + chunk + old(buffer[writeIndex + |chunk|..])
    {
      for k := 0 to |chunk|
        invariant forall j | 0 <= j < k :: buffer[writeIndex + j] == chunk[j]
        invariant forall j | 0 <= j < buffer.Length && !(writeIndex <= j < writeIndex + k) ::
          buffer[j] == old(buffer[j])
      {
        buffer[writeIndex + k] := chunk[k];
      }
    }

    method MakeRoom(overrun: nat)
      modifies this`readIndex, this`overflowCount, this`isFull
      ensures readIndex == AdvanceIndex(old(readIndex), overrun, buffer.Length)
      ensures overflowCount == old(overflowCount) + 1 && !isFull
    {
      readIndex := AdvanceIndex(readIndex, overrun, buffer.Length);
      overflowCount := overflowCount + 1;
      isFull := false;
    }

    method Account(written: nat)
      modifies this`dataSize, this`isFull
      ensures dataSize == Min(old(dataSize) + written, buffer.Length)
      ensures isFull == (old(isFull) || dataSize == buffer.Length)
    {
      var newDataSize := dataSize + written;
      if newDataSize > buffer.Length {
        dataSize := buffer.Length;
        isFull := true;
      } else {
        dataSize := newDataSize;
        if dataSize == buffer.Length {
          isFull := true;
        }
      }
    }

    /** The write when the data fits. */
    method Append(data: seq<byte>)
      requires Valid() && dataSize + |data| <= buffer.Length
      modifies this`writeIndex, this`dataSize, this`isFull, buffer
      ensures Valid() && Contents() == old(Contents()) + data
    {
      ghost var before, n := buffer[..], dataSize;
      IndicesAfter(readIndex, n, |data|, buffer.Length);
      CopyIn(data);
      ContentsGrow(before, readIndex, n, data, buffer[..]);
      Account(|data|);
    }

    /** The write when old bytes have to give way. */
    method Overrun(data: seq<byte>)
      requires Valid() && dataSize + |data| > buffer.Length
      modifies this`readIndex, this`writeIndex, this`dataSize, this`isFull, this`overflowCount, buffer
      ensures overflowCount == old(overflowCount) + 1
      ensures Valid() <==> old(readIndex) + old(dataSize) + |data| < 3 * buffer.Length
      ensures Valid() ==> Contents() == Last(old(Contents()) + data, buffer.Length)
      ensures readIndex == AdvanceIndex(old(readIndex), old(dataSize) + |data| - buffer.Length, buffer.Length)
    {
      ghost var before := buffer[..];
      IndicesAfter(readIndex, dataSize, |data|, buffer.Length);
      IndicesAfterOverrun(readIndex, dataSize, |data|, buffer.Length);
      MakeRoom(|data| - (buffer.Length - dataSize));
      CopyIn(data);
      Account(|data|);
      if Valid() {
        ContentsAfter(before, old(readIndex), old(dataSize), data, buffer[..], readIndex, dataSize);
      }
    }

    /**
     * Without overwriting, as much is appended as fits. With overwriting everything is
     * appended and the oldest bytes give way; the buffer stays valid exactly when moving
     * the read index does not carry it round twice.
     */
    method Write(data: seq<byte>) returns (written: nat)
      requires Valid()
      modifies this`readIndex, this`writeIndex, this`dataSize, this`isFull, this`overflowCount, buffer
      ensures written == if isOverwrite then |data| else Min(|data|, buffer.Length - old(dataSize))
      ensures Valid() <==> !isOverwrite || old(readIndex) + old(dataSize) + |data| < 3 * buffer.Length
      ensures Valid() ==> Contents() == AfterWrite(old(Contents()), data, buffer.Length, isOverwrite)
      ensures readIndex == ReadIndexAfter(old(readIndex), old(dataSize), |data|, buffer.Length, isOverwrite)
      ensures overflowCount == old(overflowCount)
        + (if isOverwrite && old(dataSize) + |data| > buffer.Length then 1 else 0)
    {
      ghost var held := Contents();
      if |data| == 0 {
        assert held + data == held;
        return 0;
      }
      var freeSpace := buffer.Length - dataSize;
      written := Min(|data|, if isOverwrite then |data| else freeSpace);
      if isOverwrite && |data| > freeSpace {
        Overrun(data);
      } else {
        assert isOverwrite ==> data[..written] == data && Last(held + data, |held + data|) == held + data;
        Append(data[..written]);
      }
    }

    /** Copies `length` bytes out, from an index that it moves round the storage. */
    method CopyOut(start: nat, length: nat, dest: array<byte>) returns (index: nat)
      requires start < buffer.Length && length <= buffer.Length && length <= dest.Length && dest != buffer
      modifies dest
      ensures index == AdvanceIndex(start, length, buffer.Length)
      ensures dest[..length] == Rot(buffer[..], start)[..length]
      ensures dest[length..] == old(dest[length..])
    {
      index := start;
      var total := 0;
      ghost var view := Rot(buffer[..], start);
      while total < length
        invariant 0 <= total <= length && index == AdvanceIndex(start, total, buffer.Length)
        invariant dest[..total] == view[..total]
        invariant forall k | total <= k < dest.Length :: dest[k] == old(dest[k])
      {
        var spaceToEnd := buffer.Length - index;
        var chunkSize := Min(length - total, spaceToEnd);
        CopyOutStep(buffer[..], start, total, chunkSize);
        var chunk := buffer[index..index + chunkSize];
        assert view[..total + chunkSize] == view[..total] + chunk;
        CopyChunkOut(chunk, dest, total);
        index := AdvanceIndex(index, chunkSize, buffer.Length);
        total := total + chunkSize;
      }
    }

    static method CopyChunkOut(chunk: seq<byte>, dest: array<byte>, at: nat)
      requires at + |chunk| <= dest.Length
      modifies dest
      ensures dest[..] == old(dest[..at]) + chunk + old(dest[at + |chunk|..])
    {
      for k := 0 to |chunk|
        invariant forall j | 0 <= j < k :: dest[at + j] == chunk[j]
        invariant forall j | 0 <= j < dest.Length && !(at <= j < at + k) :: dest[j] == old(dest[j])
      {
        dest[at + k] := chunk[k];
      }
    }

    /** The oldest bytes leave in the order they came; reading from nothing is counted. */
    method Read(dest: array<byte>, maxLength: nat) returns (totalRead: nat)
      requires Valid() && maxLength <= dest.Length && dest != buffer
      modifies this`readIndex, this`dataSize, this`isFull, this`underflowCount, dest
      ensures Valid() && totalRead == Min(maxLength, old(dataSize))
      ensures old(Contents()) == dest[..totalRead] + Contents()
      ensures readIndex == AdvanceIndex(old(readIndex), totalRead, buffer.Length)
      ensures dest[totalRead..] == old(dest[totalRead..])
      ensures underflowCount == old(underflowCount) + (if maxLength > 0 && old(dataSize) == 0 then 1 else 0)
    {
      if maxLength == 0 {
        return 0;
      }
      if !isFull && readIndex == writeIndex {
        underflowCount := underflowCount + 1;
        return 0;
      }
      totalRead := Min(maxLength, dataSize);
      RotAdvance(buffer[..], readIndex, totalRead);
      readIndex := CopyOut(readIndex, totalRead, dest);
      dataSize := dataSize - totalRead;
      isFull := false;
    }

    /** What a read after skipping `offset` bytes would return, with the buffer left as it is. */
    method Peek(dest: array<byte>, maxLength: nat, offset: nat) returns (totalPeeked: nat)
      requires Valid() && maxLength <= dest.Length && dest != buffer
      modifies dest
      ensures totalPeeked == if offset >= dataSize then 0 else Min(maxLength, dataSize - offset)
      ensures totalPeeked > 0 ==> dest[..totalPeeked] == Contents()[offset..offset + totalPeeked]
      ensures dest[totalPeeked..] == old(dest[totalPeeked..])
    {
      if maxLength == 0 || offset >= dataSize {
        return 0;
      }
      totalPeeked := Min(maxLength, dataSize - offset);
      var peekIndex := AdvanceIndex(readIndex, offset, buffer.Length);
      RotAdvance(buffer[..], readIndex, offset);
      peekIndex := CopyOut(peekIndex, totalPeeked, dest);
    }

    method Clear()
      modifies this`readIndex, this`writeIndex, this`dataSize, this`isFull
      requires buffer.Length > 0
      ensures Valid() && Contents() == []
    {
      readIndex, writeIndex, dataSize, isFull := 0, 0, 0, false;
    }
  }

  /** An empty ring of the given size, or none without a size or memory. */
  method InitRingBuffer(capacity: nat, allowOverwrite: bool, allocOk: bool) returns (r: int, ring: RingBuffer?)
    ensures r == if capacity > 0 && allocOk then 0 else -1
    ensures r == 0 <==> ring != null
    ensures ring != null ==>
      && fresh(ring) && fresh(ring.buffer) && ring.Valid() && ring.Contents() == []
      && ring.buffer.Length == capacity && ring.isOverwrite == allowOverwrite
      && ring.overflowCount == ring.underflowCount == 0
  {
    if capacity == 0 || !allocOk {
      return -1, null;
    }
    ring := new RingBuffer(capacity, allowOverwrite);
    r := 0;
  }

  ghost predicate Represents(ring: RingBuffer, t: Trace)
    reads ring, ring.buffer
  {
    ring.Valid() && ring.Contents() == t.held && ring.readIndex == t.readIndex
  }

  /** One operation on a ring; false when the write carries the read index out of the storage. */
  method Serve(ring: RingBuffer, op: Op, ghost t: Trace) returns (fits: bool, delivered: seq<byte>)
    requires Represents(ring, t)
    modifies ring, ring.buffer
    ensures fits == Fits(t, op, ring.buffer.Length, ring.isOverwrite)
    ensures ring.Valid() <==> fits
    ensures fits ==> Represents(ring, Step(t, op, ring.buffer.Length, ring.isOverwrite))
    ensures fits ==> t.delivered + delivered == Step(t, op, ring.buffer.Length, ring.isOverwrite).delivered
  {
    fits, delivered := true, [];
    match op {
      case Put(data) =>
        fits := !ring.isOverwrite || ring.readIndex + ring.dataSize + |data| < 3 * ring.buffer.Length;
        var _ := ring.Write(data);
      case Take(maxLength) =>
        var dest := new byte[maxLength](_ => 0);
        var n := ring.Read(dest, maxLength);
        delivered := dest[..n];
    }
  }

  /** A ring used until the first write that does not fit, which leaves it broken. */
  method ServeAll(ring: RingBuffer, ops: seq<Op>) returns (valid: bool, delivered: seq<byte>)
    requires ring.Valid() && ring.Contents() == [] && ring.readIndex == 0
    modifies ring, ring.buffer
    ensures valid == Legal(ops, ring.buffer.Length, ring.isOverwrite) && (ring.Valid() <==> valid)
    ensures valid ==> var t := Run(ops, ring.buffer.Length, ring.isOverwrite);
                      ring.Contents() == t.held && delivered == t.delivered
  {
    delivered := [];
    ghost var t, capacity, overwrite := Trace([], 0, [], []), ring.buffer.Length, ring.isOverwrite;
    for i := 0 to |ops|
      invariant Represents(ring, t) && t == Run(ops[..i], capacity, overwrite) && delivered == t.delivered
      invariant Legal(ops[..i], capacity, overwrite)
    {
      assert ops[..i + 1][..i] == ops[..i];
      var fits, more := Serve(ring, ops[i], t);
      if !fits {
        if Legal(ops, capacity, overwrite) {
          LegalPrefix(ops, i + 1, capacity, overwrite);
        }
        return false, [];
      }
      t, delivered := Step(t, ops[i], capacity, overwrite), delivered + more;
    }
    assert ops[..|ops|] == ops;
    valid := true;
  }
}
