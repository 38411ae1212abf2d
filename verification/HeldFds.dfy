/** Publishing held descriptors in the environment, and reading them there. */
module HeldFds {

  import opened Options
  import opened Int32
  import opened HeldFdsSpec

  /** What a formatted write leaves in a buffer from `pos` on. */
  method Print(buffer: array<char>, pos: nat, text: string) returns (ok: bool)
    requires pos < buffer.Length
    modifies buffer
    ensures ok == (pos + |text| < buffer.Length)
    ensures buffer[..pos] == old(buffer[..pos])
    ensures ok ==> buffer[pos..pos + |text|] == text
  {
    if pos + |text| >= buffer.Length {
      return false;
    }
    for k := 0 to |text|
      invariant forall j | 0 <= j < k :: buffer[pos + j] == text[j]
      invariant forall j | 0 <= j < pos :: buffer[j] == old(buffer[j])
    {
      buffer[pos + k] := text[k];
    }
    return true;
  }

  lemma {:induction false} TextGrows(dups: seq<int>, i: nat)
    requires i <= |dups|
    ensures |Text(dups[..i])| <= |Text(dups)|
    decreases |dups| - i
  {
    if i < |dups| {
      TextGrows(dups, i + 1);
      assert dups[..i + 1][..i] == dups[..i];
    } else {
      assert dups[..i] == dups;
    }
  }

  lemma TextNext(dups: seq<int>, i: nat)
    requires i < |dups|
    ensures Text(dups[..i + 1]) == Text(dups[..i]) + (if dups[i] < 0 then "" else Decimal(dups[i]) + " ")
  {
    assert dups[..i + 1][..i] == dups[..i];
  }

  /** Prints every duplicated descriptor; gives up at the first that does not fit. */
  method PrintAll(dups: seq<int>, fdBuffer: array<char>) returns (ok: bool, pos: nat)
    requires fdBuffer.Length > 0
    modifies fdBuffer
    ensures ok <==> |Text(dups)| < fdBuffer.Length
    ensures ok ==> pos == |Text(dups)| && fdBuffer[..pos] == Text(dups)
  {
    pos := 0;
    for i := 0 to |dups|
      invariant pos == |Text(dups[..i])| < fdBuffer.Length
      invariant fdBuffer[..pos] == Text(dups[..i])
    {
      TextNext(dups, i);
      if dups[i] < 0 {
        continue;
      }
      var item := Decimal(dups[i]) + " ";
      var fits := Print(fdBuffer, pos, item);
      if !fits {
        TextGrows(dups, i + 1);
        return false, pos;
      }
      assert fdBuffer[..pos + |item|] == fdBuffer[..pos] + item;
      pos := pos + |item|;
    }
    assert dups[..|dups|] == dups;
    return true, pos;
  }

  /**
   * `dups` are the results of duplicating the held descriptors, negative for a failure. Publishing fails
   * exactly when the text of the others does not fit; when there is none of them, the code stores the
   * terminator in front of its buffer.
   */
  method PublishHoldFds(dups: seq<int>) returns (value: Option<string>, outside: bool)
    ensures outside <==> dups != [] && Duplicated(dups) == []
    ensures dups == [] || outside || |Text(dups)| >= 256 ==> value == None
    ensures dups != [] && !outside ==> |Text(dups)| > 0
    ensures dups != [] && !outside && |Text(dups)| < 256 ==> value == Some(Text(dups)[..|Text(dups)| - 1])
  {
    value, outside := None, false;
    if dups == [] {
      return;
    }
    TextOfDuplicated(dups);
    TextOfSome(Duplicated(dups));
    var fdBuffer := new char[BUFFER_SIZE](_ => '\0');
    var ok, pos := PrintAll(dups, fdBuffer);
    if !ok {
      return;
    }
    if pos == 0 {
      outside := true;
      return;
    }
    ghost var whole := fdBuffer[..pos];
    fdBuffer[pos - 1] := '\0';
    assert fdBuffer[..pos - 1] == whole[..pos - 1];
    value := Some(fdBuffer[..pos - 1]);
  }

  lemma TextOfSome(fds: seq<int>)
    requires forall i | 0 <= i < |fds| :: fds[i] >= 0
    ensures |Text(fds)| > 0 <==> fds != []
  {
  }

  // ---- Reading ----------------------------------------------------------------------------------

  /** One word, from the first character that is no delimiter. */
  method NextWord(s: string, del: string, start: nat) returns (from: nat, to: nat)
    requires start <= |s|
    ensures start <= from <= to <= |s|
    ensures if from == |s| then Words(s[start..], del) == []
            else from < to && Words(s[start..], del) == [s[from..to]] + Words(s[to..], del)
  {
    from := start;
    while from < |s| && s[from] in del
      invariant start <= from <= |s| && Words(s[start..], del) == Words(s[from..], del)
    {
      assert s[from..][1..] == s[from + 1..];
      from := from + 1;
    }
    to := from;
    while to < |s| && s[to] !in del
      invariant from <= to <= |s| && WordLength(s[from..], del) == to - from + WordLength(s[to..], del)
    {
      assert s[to..][1..] == s[to + 1..];
      to := to + 1;
    }
    if from < |s| {
      assert s[from..][..to - from] == s[from..to] && s[from..][to - from..] == s[to..];
    }
  }

  /**
   * The words of the text, in a vector that grows by half whenever it is full. `allocs` answers the
   * allocations in turn, of which `made` are made; the first that fails ends the split without a result.
   */
  method SplitStringExt(buffer: string, del: string, maxItemCount: int, allocs: nat -> bool)
    returns (items: Option<seq<string>>, made: nat)
    ensures items == if maxItemCount >= 0 && (forall k | 0 <= k < made :: allocs(k)) then Some(Words(buffer, del)) else None
  {
    made := 0;
    if maxItemCount < 0 {
      return None, 0;
    }
    var itemCounts := if maxItemCount > 50 then 50 else maxItemCount;
    made := 1;
    if !allocs(0) {
      return None, made;
    }
    var words: seq<string> := [];
    var pos := 0;
    assert buffer[0..] == buffer;
    while true
      invariant 0 <= pos <= |buffer| && |words| <= itemCounts
      invariant Words(buffer, del) == words + Words(buffer[pos..], del)
      invariant forall k | 0 <= k < made :: allocs(k)
      decreases |buffer| - pos
    {
      var from, to := NextWord(buffer, del, pos);
      if from == |buffer| {
        assert words + [] == words;
        return Some(words), made;
      }
      if |words| > itemCounts - 1 {
        itemCounts := itemCounts + itemCounts / 2 + 1;
        made := made + 1;
        if !allocs(made - 1) {
          return None, made;
        }
      }
      assert |words| < itemCounts;
      made := made + 1;
      if !allocs(made - 1) {
        return None, made;
      }
      assert words + ([buffer[from..to]] + Words(buffer[to..], del)) == (words + [buffer[from..to]]) + Words(buffer[to..], del);
      words := words + [buffer[from..to]];
      pos := to;
    }
  }

  /** The descriptors in the environment variable, if it is set, fits and holds numbers, and memory suffices. */
  method ServiceGetFd(value: Option<string>, allocs: nat -> bool, callocOk: bool)
    returns (fds: Option<seq<int>>, made: nat)
    ensures fds == if value.None? || !callocOk || (exists k | 0 <= k < made :: !allocs(k)) then None
                   else ReadFds(value.value)
    ensures value.Some? && |value.value| >= 255 ==> fds == None
  {
    made := 0;
    if value.None? || |value.value| >= BUFFER_SIZE - 1 {
      return None, made;
    }
    var fdList;
    fdList, made := SplitStringExt(value.value, " ", 64, allocs);
    if fdList.None? || !callocOk {
      return None, made;
    }
    fds := Convert(fdList.value);
  }

  method Convert(words: seq<string>) returns (fds: Option<seq<int>>)
    ensures fds == Numbers(words)
  {
    var read: seq<int> := [];
    for i := 0 to |words|
      invariant Numbers(words[..i]) == Some(read)
    {
      assert words[..i + 1][..i] == words[..i];
      match StrToL(words[i])
      case None =>
        NumbersFail(words, i);
        return None;
      case Some(n) =>
        read := read + [Wrap32(n)];
    }
    assert words[..|words|] == words;
    return Some(read);
  }

  lemma {:induction false} NumbersFail(words: seq<string>, i: nat)
    requires i < |words| && StrToL(words[i]).None?
    ensures Numbers(words).None?
  {
    if i < |words| - 1 {
      NumbersFail(words[..|words| - 1], i);
    }
  }
}
