/** The buffered copy loop shared by the bulk copiers and the adaptive stream:
    read a chunk, write it all, flush now and then. */
module CopyLoop {
  import opened Basics
  import Digits

  /** One turn of the loop as the outside world decides it: the size the reader
      offers, where the write fails if it does, whether a flush succeeds. */
  datatype Turn =
    | Chunk(offered: nat, writeFailsAfter: Option<nat>, flushWorks: bool)
    | WouldBlock
    | ReadError

  datatype Settings = Settings(bufferSize: nat, flushInterval: nat, flushOnShortRead: bool)

  datatype Status = Running | Done | ReadFailed | WriteFailed

  /** `flushed` is how much of the output the writer has really flushed. */
  datatype State = State(unread: Bytes, output: Bytes, total: nat, lastFlush: nat, flushed: nat, status: Status)

  /** A read into `room` bytes gives zero only at the end of input or without room. */
  function ReadSize(offered: nat, room: nat, available: nat): (n: nat)
    ensures n <= room && n <= available
    ensures n == 0 <==> room == 0 || available == 0
  {
    if room == 0 || available == 0 then 0 else Max(1, Min(offered, Min(room, available)))
  }

  predicate FlushDue(c: Settings, total: nat, lastFlush: nat, n: nat) {
    total - lastFlush >= c.flushInterval || (c.flushOnShortRead && n < c.bufferSize)
  }

  function Step(c: Settings, s: State, t: Turn): State {
    match t
    case WouldBlock => s
    case ReadError => s.(status := ReadFailed)
    case Chunk(offered, writeFailsAfter, flushWorks) =>
      var n := ReadSize(offered, c.bufferSize, |s.unread|);
      if n == 0 then
        if s.lastFlush >= s.total then s.(status := Done)
        else if flushWorks then s.(flushed := |s.output|, status := Done)
        else s.(status := WriteFailed)
      else
        var chunk := s.unread[..n];
        if writeFailsAfter.Some? then
          s.(unread := s.unread[n..], output := s.output + chunk[..Min(writeFailsAfter.value, n)], status := WriteFailed)
        else
          var w := s.(unread := s.unread[n..], output := s.output + chunk, total := s.total + n);
          if !FlushDue(c, w.total, w.lastFlush, n) then w
          else if flushWorks then w.(lastFlush := w.total, flushed := |w.output|)
          else w.(status := WriteFailed)
  }

  function Run(c: Settings, s: State, turns: seq<Turn>): State
    decreases |turns|
  {
    if turns == [] || s.status != Running then s else Run(c, Step(c, s, turns[0]), turns[1..])
  }

  /** What is written and flushed at every loop head of a copy of `input` that began with `base`
      bytes already written and none of them flushed. */
  ghost predicate Bounds(c: Settings, input: Bytes, base: nat, s: State) {
    && s.output <= input
    && (s.status != WriteFailed ==> s.output + s.unread == input && s.total == |s.output|)
    && base <= s.lastFlush <= s.total
    && (s.status in {Running, ReadFailed} ==> s.total - s.lastFlush < c.flushInterval)
    && s.flushed <= |s.output|
    && (s.status in {Running, ReadFailed} ==> s.flushed == if s.lastFlush == base then 0 else s.lastFlush)
    && (s.status == Done ==>
          && (c.bufferSize == 0 || s.unread == [])
          && s.flushed == if s.total == base then 0 else |s.output|)
  }

  /** Where short reads flush, only full reads are unflushed. */
  ghost predicate FullReadsOnly(c: Settings, s: State) {
    s.status in {Running, ReadFailed} && c.flushOnShortRead && c.bufferSize > 0 ==>
      s.lastFlush <= s.total && (s.total - s.lastFlush) % c.bufferSize == 0
  }

  ghost predicate LoopHead(c: Settings, input: Bytes, base: nat, s: State) {
    Bounds(c, input, base, s) && FullReadsOnly(c, s)
  }

  lemma StepKeepsLoopHead(c: Settings, input: Bytes, base: nat, s: State, t: Turn)
    requires c.flushInterval > 0 && s.status == Running && LoopHead(c, input, base, s)
    ensures LoopHead(c, input, base, Step(c, s, t))
  {
    StepKeepsBounds(c, input, base, s, t);
    StepKeepsFullReads(c, s, t);
  }

  lemma StepKeepsFullReads(c: Settings, s: State, t: Turn)
    requires s.status == Running && s.lastFlush <= s.total && FullReadsOnly(c, s)
    ensures FullReadsOnly(c, Step(c, s, t))
  {
    var m := Step(c, s, t);
    if t.Chunk? && m.status == Running && c.flushOnShortRead && c.bufferSize > 0 {
      var n := m.total - s.total;
      if m.lastFlush == m.total {
        assert (m.total - m.lastFlush) % c.bufferSize == 0;
      } else {
        assert m.lastFlush == s.lastFlush && n == c.bufferSize;
        OneMore(s.total - s.lastFlush, c.bufferSize);
      }
    }
  }

  lemma StepKeepsBounds(c: Settings, input: Bytes, base: nat, s: State, t: Turn)
    requires c.flushInterval > 0 && s.status == Running && Bounds(c, input, base, s)
    ensures Bounds(c, input, base, Step(c, s, t))
  {
    if t.Chunk? {
      var n := ReadSize(t.offered, c.bufferSize, |s.unread|);
      var k := if t.writeFailsAfter.Some? then Min(t.writeFailsAfter.value, n) else n;
      Move(s.output, s.unread, n, k);
    }
  }

  lemma OneMore(d: nat, size: nat)
    requires size > 0
    ensures d % size == 0 ==> (d + size) % size == 0
  {
    if d % size == 0 && size >= 2 {
      var q := d / size;
      Digits.DivMod(d, size);
      Digits.SplitLast(q + 1, 0, size);
      assert (q + 1) * size == q * size + size;
    }
  }

  /** When a chunk is written, all that was written is flushed with it if a flush
      interval is full or, where short reads flush, it is shorter than the buffer;
      and otherwise nothing is. */
  lemma FlushesExactly(c: Settings, s: State, t: Turn)
    requires s.status == Running && s.total == |s.output|
    ensures var m := Step(c, s, t);
      var n := m.total - s.total;
      m.status == Running && n > 0 ==>
        && m.total == |m.output|
        && (m.flushed, m.lastFlush) ==
             if m.total - s.lastFlush >= c.flushInterval || (c.flushOnShortRead && n < c.bufferSize)
             then (m.total, m.total) else (s.flushed, s.lastFlush)
  {}

  /** A write that fails leaves the part of the chunk that got through, and ends
      the copy; a read that fails leaves everything as it was. */
  lemma FailuresExactly(c: Settings, s: State, t: Turn)
    requires s.status == Running
    ensures var m := Step(c, s, t);
      && (t == ReadError ==> m == s.(status := ReadFailed))
      && (t == WouldBlock ==> m == s)
      && (t.Chunk? && t.writeFailsAfter.Some? && c.bufferSize > 0 && s.unread != [] ==>
            && m.status == WriteFailed && m.flushed == s.flushed
            && exists n :: (1 <= n <= c.bufferSize && n <= |s.unread|
                            && m.output == s.output + s.unread[..Min(t.writeFailsAfter.value, n)] && m.unread == s.unread[n..]))
  {
    if t.Chunk? && t.writeFailsAfter.Some? && c.bufferSize > 0 && s.unread != [] {
      var n := ReadSize(t.offered, c.bufferSize, |s.unread|);
      var k := Min(t.writeFailsAfter.value, n);
      assert s.unread[..n][..k] == s.unread[..k];
    }
  }

  /** So a short chunk that is written and flushed leaves nothing unflushed. */
  lemma ShortReadFlushes(c: Settings, s: State, offered: nat)
    requires s.status == Running && s.total == |s.output| && c.flushOnShortRead
    ensures var m := Step(c, s, Chunk(offered, None, true));
      0 < |m.output| - |s.output| < c.bufferSize ==> m.flushed == |m.output|
  {}

  /** And where only the interval flushes, nothing is flushed before it is full or
      the input ends. */
  lemma {:induction false} NothingFlushedEarly(c: Settings, base: nat, s: State, turns: seq<Turn>)
    requires !c.flushOnShortRead && s.flushed == 0 && s.lastFlush == base <= s.total
    requires s.status == Done || s.total - base < c.flushInterval
    ensures var t := Run(c, s, turns);
      t.status != Done && s.status != Done && t.total - base < c.flushInterval ==> t.flushed == 0 && t.lastFlush == base
    decreases |turns|
  {
    if turns != [] && s.status == Running {
      var m := Step(c, s, turns[0]);
      TotalGrows(c, m, turns[1..]);
      if m.status != Done && m.total - base < c.flushInterval {
        NothingFlushedEarly(c, base, m, turns[1..]);
      }
    }
  }

  lemma {:induction false} TotalGrows(c: Settings, s: State, turns: seq<Turn>)
    ensures Run(c, s, turns).total >= s.total
    ensures s.status == Done ==> Run(c, s, turns).status == Done
    decreases |turns|
  {
    if turns != [] && s.status == Running {
      TotalGrows(c, Step(c, s, turns[0]), turns[1..]);
    }
  }

  /** Writing k of the n bytes just read. */
  lemma Move(output: Bytes, unread: Bytes, n: nat, k: nat)
    requires k <= n <= |unread|
    ensures output + unread[..n][..k] <= output + unread
    ensures k == n ==> output + unread[..n] + unread[n..] == output + unread
  {}

  lemma {:induction false} RunKeepsLoopHead(c: Settings, input: Bytes, base: nat, s: State, turns: seq<Turn>)
    requires c.flushInterval > 0 && LoopHead(c, input, base, s)
    ensures LoopHead(c, input, base, Run(c, s, turns))
    decreases |turns|
  {
    if turns != [] && s.status == Running {
      StepKeepsLoopHead(c, input, base, s, turns[0]);
      RunKeepsLoopHead(c, input, base, Step(c, s, turns[0]), turns[1..]);
    }
  }

  /** The loop, from any state it can start in. */
  method Copy(c: Settings, start: State, turns: seq<Turn>) returns (end: State)
    requires start.status == Running
    ensures end == Run(c, start, turns)
  {
    var unread, output, total, lastFlush, flushed := start.unread, start.output, start.total, start.lastFlush, start.flushed;
    var i := 0;
    while i < |turns|
      invariant 0 <= i <= |turns|
      invariant Run(c, start, turns) == Run(c, State(unread, output, total, lastFlush, flushed, Running), turns[i..])
    {
      match turns[i] {
      case WouldBlock =>
      case ReadError =>
        return State(unread, output, total, lastFlush, flushed, ReadFailed);
      case Chunk(offered, writeFailsAfter, flushWorks) =>
        var n := ReadSize(offered, c.bufferSize, |unread|);
        if n == 0 {
          if lastFlush < total {
            if !flushWorks {
              return State(unread, output, total, lastFlush, flushed, WriteFailed);
            }
            flushed := |output|;
          }
          return State(unread, output, total, lastFlush, flushed, Done);
        }
        var chunk := unread[..n];
        unread := unread[n..];
        if writeFailsAfter.Some? {
          output := output + chunk[..Min(writeFailsAfter.value, n)];
          return State(unread, output, total, lastFlush, flushed, WriteFailed);
        }
        output := output + chunk;
        total := total + n;
        if FlushDue(c, total, lastFlush, n) {
          if !flushWorks {
            return State(unread, output, total, lastFlush, flushed, WriteFailed);
          }
          flushed := |output|;
          lastFlush := total;
        }
      }
      i := i + 1;
    }
    end := State(unread, output, total, lastFlush, flushed, Running);
  }
}

/** The two bulk copiers. */
module BulkCopy {
  import opened Basics
  import opened CopyLoop

  const MIB: nat := 1024 * 1024

  function ZeroCopySettings(bufferSize: nat): Settings {
    Settings(bufferSize, 2 * MIB, true)
  }

  function AdaptiveCopySettings(bufferSize: nat): Settings {
    Settings(bufferSize, if bufferSize >= 256 * 1024 then 4 * MIB else 2 * MIB, true)
  }

  function Fresh(input: Bytes): State {
    State(input, [], 0, 0, 0, Running)
  }

  /** What a bulk copy promises of its end state. */
  ghost predicate Promise(c: Settings, input: Bytes, end: State) {
    && end.output <= input
    && (end.status == Done ==>
          && end.flushed == |end.output| == end.total
          && (end.output == input <==> c.bufferSize > 0 || input == []))
    && (end.status == ReadFailed ==> end.output + end.unread == input && end.total == |end.output|)
    && (end.status in {Running, ReadFailed} ==>
          && end.total - end.flushed < c.flushInterval
          && (c.flushOnShortRead && c.bufferSize > 0 ==> (end.total - end.flushed) % c.bufferSize == 0))
  }

  lemma BulkCopyPromise(c: Settings, input: Bytes, turns: seq<Turn>)
    requires c.flushInterval > 0
    ensures Promise(c, input, Run(c, Fresh(input), turns))
  {
    var end := Run(c, Fresh(input), turns);
    RunKeepsLoopHead(c, input, 0, Fresh(input), turns);
    if c.bufferSize == 0 {
      ZeroBufferCopiesNothing(c, Fresh(input), turns);
    }
  }

  /** Without a buffer every read looks like the end of input. */
  lemma {:induction false} ZeroBufferCopiesNothing(c: Settings, s: State, turns: seq<Turn>)
    requires c.bufferSize == 0
    ensures Run(c, s, turns).output == s.output
    decreases |turns|
  {
    if turns != [] && s.status == Running {
      ZeroBufferCopiesNothing(c, Step(c, s, turns[0]), turns[1..]);
    }
  }

  /** The fall-back copier of the zero-copy module. */
  method ZeroCopyBulk(input: Bytes, bufferSize: nat, turns: seq<Turn>) returns (end: State)
    ensures end == Run(ZeroCopySettings(bufferSize), Fresh(input), turns)
    ensures Promise(ZeroCopySettings(bufferSize), input, end)
    ensures end.status in {Running, ReadFailed} ==>
      && end.total - end.flushed < 2 * 1024 * 1024
      && (bufferSize > 0 ==> (end.total - end.flushed) % bufferSize == 0)
  {
    BulkCopyPromise(ZeroCopySettings(bufferSize), input, turns);
    end := Copy(ZeroCopySettings(bufferSize), Fresh(input), turns);
  }

  /** The copier of the adaptive module, with its own flush interval. */
  method AdaptiveBulk(input: Bytes, bufferSize: nat, turns: seq<Turn>) returns (end: State)
    ensures end == Run(AdaptiveCopySettings(bufferSize), Fresh(input), turns)
    ensures Promise(AdaptiveCopySettings(bufferSize), input, end)
    ensures end.status in {Running, ReadFailed} ==>
      && end.total - end.flushed < (if bufferSize >= 256 * 1024 then 4 else 2) * 1024 * 1024
      && (bufferSize > 0 ==> (end.total - end.flushed) % bufferSize == 0)
  {
    BulkCopyPromise(AdaptiveCopySettings(bufferSize), input, turns);
    end := Copy(AdaptiveCopySettings(bufferSize), Fresh(input), turns);
  }

  /** Both flush after every chunk shorter than their buffer, and when an interval
      of 2 MiB is full, or 4 MiB for the adaptive copier's large buffers. */
  lemma BulkFlushesExactly(bufferSize: nat, s: State, t: Turn, adaptive: bool)
    requires s.status == Running && s.total == |s.output|
    ensures var c := if adaptive then AdaptiveCopySettings(bufferSize) else ZeroCopySettings(bufferSize);
      var m := Step(c, s, t);
      var n := m.total - s.total;
      var interval := (if adaptive && bufferSize >= 256 * 1024 then 4 else 2) * 1024 * 1024;
      m.status == Running && n > 0 ==>
        (m.flushed, m.lastFlush) ==
          if m.total - s.lastFlush >= interval || n < bufferSize then (m.total, m.total) else (s.flushed, s.lastFlush)
  {
    FlushesExactly(if adaptive then AdaptiveCopySettings(bufferSize) else ZeroCopySettings(bufferSize), s, t);
  }
}
