/** retrieve_last_five_logs() of kernel/sys.c: count the records of the kernel log, walk it again and
    copy the last five into the caller's buffer. The log may change between the two passes. */
module KernelLog {
  import opened Errno

  type Bytes = seq<char>

  const MAX_LOG_ENTRIES := 5
  const KERNEL_LOG_BUFFER_SIZE := 1024

  /** A log as kmsg_dump_get_line() hands it out: no line is longer than the buffer it is given. */
  ghost predicate ValidLog(log: seq<Bytes>) {
    forall line <- log :: |line| <= KERNEL_LOG_BUFFER_SIZE - 1
  }

  function Concat(lines: seq<Bytes>): Bytes {
    if lines == [] then [] else lines[0] + Concat(lines[1..])
  }

  /** Lines for as long as they leave at least one byte of `room` free. */
  function Fitting(lines: seq<Bytes>, room: nat): Bytes {
    if lines == [] || |lines[0]| >= room then [] else lines[0] + Fitting(lines[1..], room - |lines[0]|)
  }

  /** The part of a log that the second pass looks at, when the first pass counted `total` lines. */
  function Wanted(log: seq<Bytes>, total: nat): seq<Bytes> {
    if total <= MAX_LOG_ENTRIES then log
    else if total - MAX_LOG_ENTRIES <= |log| then log[total - MAX_LOG_ENTRIES..]
    else []
  }

  // ---------------------------------------------------------------- what Fitting means

  lemma {:induction false} ConcatAppend(a: seq<Bytes>, line: Bytes)
    ensures Concat(a + [line]) == Concat(a) + line
  {
    if a == [] {
      assert Concat([line]) == line + [];
    } else {
      assert (a + [line])[1..] == a[1..] + [line];
      ConcatAppend(a[1..], line);
    }
  }

  /** The first k lines are the longest prefix shorter than `room`. */
  ghost predicate LongestPrefix(lines: seq<Bytes>, room: nat, k: int) {
    && 0 <= k <= |lines| && |Concat(lines[..k])| < room
    && (k < |lines| ==> |Concat(lines[..k + 1])| >= room)
  }

  /** Fitting is the longest prefix of the lines that is shorter than the room. */
  lemma {:induction false} FittingIsLongestPrefix(lines: seq<Bytes>, room: nat) returns (k: nat)
    requires room > 0
    ensures LongestPrefix(lines, room, k) && Fitting(lines, room) == Concat(lines[..k])
  {
    if lines == [] || |lines[0]| >= room {
      k := 0;
      if lines != [] {
        assert lines[..1] == [lines[0]];
        assert Concat(lines[..1]) == lines[0] + Concat([]);
      }
    } else {
      var k' := FittingIsLongestPrefix(lines[1..], room - |lines[0]|);
      k := k' + 1;
      assert lines[..k][1..] == lines[1..][..k'];
      if k < |lines| { assert lines[..k + 1][1..] == lines[1..][..k' + 1]; }
    }
  }

  lemma {:induction false} ConcatMonotone(lines: seq<Bytes>, k: nat, n: nat)
    requires k <= n <= |lines|
    ensures |Concat(lines[..k])| <= |Concat(lines[..n])|
  {
    if k < n {
      ConcatMonotone(lines, k, n - 1);
      assert lines[..n] == lines[..n - 1] + [lines[n - 1]];
      ConcatAppend(lines[..n - 1], lines[n - 1]);
    }
  }

  lemma {:induction false} PrefixConcat(lines: seq<Bytes>, k: nat)
    requires k <= |lines|
    ensures Concat(lines[..k]) <= Concat(lines)
  {
    if k > 0 {
      assert lines[..k][1..] == lines[1..][..k - 1];
      PrefixConcat(lines[1..], k - 1);
    }
  }

  /** Everything is returned iff everything together is shorter than the buffer; otherwise it is the
      newest records that are missing. */
  lemma AllFiveIff(log: seq<Bytes>, room: nat)
    requires room > 0
    ensures var last := Wanted(log, |log|);
            && |last| == (if |log| < MAX_LOG_ENTRIES then |log| else MAX_LOG_ENTRIES)
            && (Fitting(last, room) == Concat(last) <==> |Concat(last)| < room)
            && Fitting(last, room) <= Concat(last)
  {
    var last := Wanted(log, |log|);
    var k := FittingIsLongestPrefix(last, room);
    assert last[..|last|] == last;
    ConcatMonotone(last, k, |last|);
    if k < |last| { ConcatMonotone(last, k + 1, |last|); }
    PrefixConcat(last, k);
  }

  /** The wanted records are the last five, or all there are; when the log has changed between the passes, those from
      the position on at which the last five began. */
  lemma WantedIsLastFive(log: seq<Bytes>, total: nat)
    ensures total == |log| && total >= 5 ==> |Wanted(log, total)| == 5 && Wanted(log, total) == log[total - 5..]
    ensures total <= 5 ==> Wanted(log, total) == log
    ensures 5 < total <= |log| + 5 ==> Wanted(log, total) == log[total - 5..]
    ensures total > |log| + 5 ==> Wanted(log, total) == []
  {
  }

  /** Concat puts one record after another. */
  lemma ConcatExactly(lines: seq<Bytes>, line: Bytes)
    ensures Concat([]) == [] && Concat(lines + [line]) == Concat(lines) + line
  {
    ConcatAppend(lines, line);
  }

  /** With room for five lines of the greatest length nothing is ever missing. */
  lemma {:induction false} EnoughRoom(lines: seq<Bytes>, room: nat)
    requires ValidLog(lines) && |lines| * (KERNEL_LOG_BUFFER_SIZE - 1) < room
    ensures Fitting(lines, room) == Concat(lines)
  {
    if lines != [] {
      assert lines[0] in lines;
      assert ValidLog(lines[1..]);
      EnoughRoom(lines[1..], room - |lines[0]|);
    }
  }

  // ---------------------------------------------------------------- the system call

  /** The wanted lines the second pass has not yet reached after i lines. */
  ghost function Ahead(log: seq<Bytes>, total: nat, i: nat): seq<Bytes>
    requires i <= |log|
  {
    if i + MAX_LOG_ENTRIES < total then Wanted(log, total) else log[i..]
  }

  /** After i lines the pass has copied `done`; what it will copy in the end is `done` and whatever of
      the lines ahead still fits. */
  ghost predicate Copied(log: seq<Bytes>, total: nat, i: nat, room: nat, done: Bytes) {
    && i <= |log| && |done| < room
    && Fitting(Wanted(log, total), room) == done + Fitting(Ahead(log, total, i), room - |done|)
  }

  lemma CopiedStep(log: seq<Bytes>, total: nat, i: nat, room: nat, done: Bytes)
    requires i < |log| && Copied(log, total, i, room, done)
    ensures total - i > MAX_LOG_ENTRIES ==> Copied(log, total, i + 1, room, done)
    ensures total - i <= MAX_LOG_ENTRIES && |done| + |log[i]| < room ==> Copied(log, total, i + 1, room, done + log[i])
    ensures total - i <= MAX_LOG_ENTRIES && |done| + |log[i]| >= room ==> Fitting(Wanted(log, total), room) == done
  {
    var ahead := Ahead(log, total, i);
    if total - i > MAX_LOG_ENTRIES {
      assert Ahead(log, total, i + 1) == ahead;
    } else {
      var next := Ahead(log, total, i + 1);
      assert ahead[0] == log[i] && ahead[1..] == next;
      if |done| + |log[i]| < room {
        var rest := Fitting(next, room - |done| - |log[i]|);
        assert done + (log[i] + rest) == (done + log[i]) + rest;
      } else {
        assert done + [] == done;
      }
    }
  }

  method CopyLine(buffer: array<char>, offset: nat, line: Bytes)
    requires offset + |line| <= buffer.Length
    modifies buffer
    ensures buffer[..offset + |line|] == old(buffer[..offset]) + line
  {
    forall i | 0 <= i < |line| { buffer[offset + i] := line[i]; }
  }

  /** The copying pass over the log, into a buffer of the caller's length. */
  method CopyLastLines(log: seq<Bytes>, total: nat, buffer: array<char>) returns (outputOffset: nat)
    requires buffer.Length > 0
    modifies buffer
    ensures outputOffset < buffer.Length && buffer[..outputOffset] == Fitting(Wanted(log, total), buffer.Length)
  {
    outputOffset := 0;
    var linesProcessed := 0;
    assert Ahead(log, total, 0) == Wanted(log, total);
    while linesProcessed < |log|
      invariant linesProcessed <= |log| && outputOffset < buffer.Length
      invariant Copied(log, total, linesProcessed, buffer.Length, buffer[..outputOffset])
    {
      CopiedStep(log, total, linesProcessed, buffer.Length, buffer[..outputOffset]);
      if total - linesProcessed <= MAX_LOG_ENTRIES {
        var line := log[linesProcessed];
        if outputOffset + |line| >= buffer.Length {
          return;
        }
        CopyLine(buffer, outputOffset, line);
        outputOffset := outputOffset + |line|;
      }
      linesProcessed := linesProcessed + 1;
    }
    assert Ahead(log, total, |log|) == [];
  }

  /** `first` and `second` are the log as each pass sees it; on success `out` is what the caller's buffer
      receives and `ret` its length. */
  method RetrieveLastFiveLogs(first: seq<Bytes>, second: seq<Bytes>, bufferLength: nat,
                              outputAllocated: bool, lineAllocated: bool, copied: bool)
    returns (ret: int, out: Bytes)
    requires ValidLog(first) && ValidLog(second)
    ensures bufferLength < 1024 ==> ret == -EINVAL
    ensures bufferLength >= KERNEL_LOG_BUFFER_SIZE && !(outputAllocated && lineAllocated) ==> ret == -ENOMEM
    ensures bufferLength >= KERNEL_LOG_BUFFER_SIZE && outputAllocated && lineAllocated ==>
              && out == Fitting(Wanted(second, |first|), bufferLength) && |out| < bufferLength
              && ret == (if copied then |out| else -EFAULT)
    ensures ret >= 0 && Wanted(second, |first|) != [] ==> Wanted(second, |first|)[0] <= out
    ensures ret >= 0 && first == second ==>
              var last := if |second| <= 5 then second else second[|second| - 5..];
              && out <= Concat(last) && (out == Concat(last) <==> |Concat(last)| < bufferLength)
  {
    if bufferLength < KERNEL_LOG_BUFFER_SIZE { return -EINVAL, []; }
    if !outputAllocated { return -ENOMEM, []; }
    var outputBuffer := new char[bufferLength](i => '\0');
    if !lineAllocated { return -ENOMEM, []; }
    var totalLogLines := 0;
    while totalLogLines < |first|
      invariant totalLogLines <= |first|
    {
      totalLogLines := totalLogLines + 1;
    }
    var outputOffset := CopyLastLines(second, totalLogLines, outputBuffer);
    out := outputBuffer[..outputOffset];
    ghost var wanted := Wanted(second, |first|);
    if wanted != [] { assert wanted[0] in second; }
    AllFiveIff(second, bufferLength);
    if !copied { return -EFAULT, out; }
    return outputOffset, out;
  }
}
