/** The sample-then-adapt stream copier (Linux strategies). */
module AdaptiveStream {
  import opened Basics
  import opened CopyLoop

  const INITIAL_SAMPLE_SIZE: nat := 32 * 1024
  const MIN_BUFFER_SIZE: nat := 8 * 1024

  datatype Strategy =
    | SmallPacket(bufferSize: nat)
    | BurstTraffic(bufferSize: nat, flushInterval: nat)
    | ContinuousStream(bufferSize: nat, flushInterval: nat)

  function AnalyzeTrafficPattern(sampleSize: nat, isEos: bool): Strategy {
    if isEos then SmallPacket(MIN_BUFFER_SIZE)
    else if sampleSize < 16 * 1024 then SmallPacket(16 * 1024)
    else if sampleSize < 64 * 1024 then BurstTraffic(64 * 1024, 128 * 1024)
    else ContinuousStream(128 * 1024, 4 * 1024 * 1024)
  }

  function SettingsFor(strategy: Strategy): Settings {
    match strategy
    case SmallPacket(size) => Settings(size, size, true)
    case BurstTraffic(size, interval) => Settings(size, interval, true)
    case ContinuousStream(size, interval) => Settings(size, interval, false)
  }

  // Sampling

  datatype Sampling = StillSampling | EndOfStream | Full | SampleFailed

  /** `used` turns of the schedule are gone. */
  datatype Sample = Sample(bytes: Bytes, outcome: Sampling, used: nat)

  function SampleRun(input: Bytes, got: nat, turns: seq<Turn>, used: nat): (s: Sample)
    requires got < INITIAL_SAMPLE_SIZE && got <= |input| && used <= |turns|
    ensures s.used <= |turns| && s.bytes <= input
    ensures s.outcome == Full <==> |s.bytes| == 32 * 1024
    ensures s.outcome == EndOfStream ==> s.bytes == input
    decreases |turns| - used
  {
    if used == |turns| then Sample(input[..got], StillSampling, used)
    else match turns[used]
      case WouldBlock => SampleRun(input, got, turns, used + 1)
      case ReadError => Sample(input[..got], SampleFailed, used + 1)
      case Chunk(offered, _, _) =>
        var n := ReadSize(offered, INITIAL_SAMPLE_SIZE - got, |input| - got);
        if n == 0 then Sample(input[..got], EndOfStream, used + 1)
        else if got + n >= INITIAL_SAMPLE_SIZE then Sample(input[..got + n], Full, used + 1)
        else SampleRun(input, got + n, turns, used + 1)
  }

  /** Fills a fixed buffer from the reader. No read is ever issued without room,
      so a zero-length read is always the end of the stream. */
  method ReadInitialSample(input: Bytes, turns: seq<Turn>) returns (data: Bytes, size: nat, outcome: Sampling, used: nat)
    ensures |data| == INITIAL_SAMPLE_SIZE && size <= |data|
    ensures Sample(data[..size], outcome, used) == SampleRun(input, 0, turns, 0)
  {
    var buffer := new byte[INITIAL_SAMPLE_SIZE](_ => 0);
    size, used, outcome := 0, 0, StillSampling;
    while used < |turns| && outcome == StillSampling
      invariant used <= |turns| && size <= INITIAL_SAMPLE_SIZE && size <= |input|
      invariant forall j :: 0 <= j < size ==> buffer[j] == input[j]
      invariant outcome == StillSampling ==> size < INITIAL_SAMPLE_SIZE
      invariant SampleRun(input, 0, turns, 0)
             == if outcome == StillSampling then SampleRun(input, size, turns, used) else Sample(input[..size], outcome, used)
    {
      match turns[used] {
      case WouldBlock =>
      case ReadError => outcome := SampleFailed;
      case Chunk(offered, _, _) =>
        assert buffer.Length - size > 0;
        var n := ReadSize(offered, buffer.Length - size, |input| - size);
        if n == 0 {
          outcome := EndOfStream;
        } else {
          forall j | 0 <= j < n {
            buffer[size + j] := input[size + j];
          }
          size := size + n;
          if size >= INITIAL_SAMPLE_SIZE {
            outcome := Full;
          }
        }
      }
      used := used + 1;
    }
    data := buffer[..];
    assert data[..size] == input[..size];
  }

  // The whole copy

  /** How the write and the flush of the sample itself turn out. */
  datatype SampleWrite = SampleWrite(failsAfter: Option<nat>, flushWorks: bool)

  function AfterSample(input: Bytes, sample: Sample, write: SampleWrite): State
    requires sample.bytes <= input
  {
    var k := |sample.bytes|;
    match sample.outcome
    case StillSampling => State(input[k..], [], 0, 0, 0, Running)
    case SampleFailed => State(input[k..], [], 0, 0, 0, ReadFailed)
    case _ =>
      if write.failsAfter.Some? then
        State(input[k..], sample.bytes[..Min(write.failsAfter.value, k)], 0, 0, 0, WriteFailed)
      else if sample.outcome == Full then State(input[k..], sample.bytes, k, k, 0, Running)
      else if write.flushWorks then State([], sample.bytes, k, k, k, Done)
      else State([], sample.bytes, k, k, 0, WriteFailed)
  }

  function AdaptiveCopy(input: Bytes, turns: seq<Turn>, write: SampleWrite): State {
    var sample := SampleRun(input, 0, turns, 0);
    var s := AfterSample(input, sample, write);
    if sample.outcome == Full
    then Run(SettingsFor(AnalyzeTrafficPattern(|sample.bytes|, false)), s, turns[sample.used..])
    else s
  }

  method AdaptiveStreamCopy(input: Bytes, turns: seq<Turn>, write: SampleWrite) returns (end: State)
    ensures end == AdaptiveCopy(input, turns, write)
  {
    var data, size, outcome, used := ReadInitialSample(input, turns);
    if outcome == StillSampling {
      return State(input[size..], [], 0, 0, 0, Running);
    }
    if outcome == SampleFailed {
      return State(input[size..], [], 0, 0, 0, ReadFailed);
    }
    if write.failsAfter.Some? {
      return State(input[size..], data[..size][..Min(write.failsAfter.value, size)], 0, 0, 0, WriteFailed);
    }
    if outcome == EndOfStream {
      assert input[size..] == [];
      return State([], data[..size], size, size, if write.flushWorks then size else 0, if write.flushWorks then Done else WriteFailed);
    }
    var strategy := AnalyzeTrafficPattern(size, false);
    end := Copy(SettingsFor(strategy), State(input[size..], data[..size], size, size, 0, Running), turns[used..]);
  }

  /** A full sample is exactly 32 KiB, so only one strategy ever runs. */
  lemma OnlyBurstTraffic(input: Bytes, turns: seq<Turn>)
    requires SampleRun(input, 0, turns, 0).outcome == Full
    ensures AnalyzeTrafficPattern(|SampleRun(input, 0, turns, 0).bytes|, false) == BurstTraffic(64 * 1024, 128 * 1024)
  {}

  /** The adaptive copy is a plain copy: on normal return everything was written
      and counted, and everything is flushed unless the stream is exactly as long
      as the sample; on a read error after sampling the output is an exact prefix. */
  lemma AdaptiveCopyIsCopy(input: Bytes, turns: seq<Turn>, write: SampleWrite)
    ensures var end := AdaptiveCopy(input, turns, write);
      && end.output <= input
      && (end.status == Done ==>
            && end.output == input && end.total == |input|
            && (end.flushed == |input| <==> |input| != 32 * 1024))
      && (end.status == ReadFailed && end.output != [] ==> end.output + end.unread == input && end.total == |end.output|)
      && (end.status in {Running, ReadFailed} ==>
            end.total - end.lastFlush < 128 * 1024 && (end.total - end.lastFlush) % (64 * 1024) == 0)
  {
    var sample := SampleRun(input, 0, turns, 0);
    if sample.outcome == Full {
      var s := AfterSample(input, sample, write);
      var c := SettingsFor(AnalyzeTrafficPattern(|sample.bytes|, false));
      assert s.status == Running ==> LoopHead(c, input, |sample.bytes|, s);
      if s.status == Running {
        RunKeepsLoopHead(c, input, |sample.bytes|, s, turns[sample.used..]);
      }
    }
  }

  /** Such a stream: read in one piece, copied, and never flushed. */
  lemma ExactSampleUnflushed(input: Bytes)
    requires |input| == 32 * 1024
    ensures var turns := [Chunk(INITIAL_SAMPLE_SIZE, None, true), Chunk(1, None, true)];
      var end := AdaptiveCopy(input, turns, SampleWrite(None, true));
      end.status == Done && end.output == input && end.total == |input| && end.flushed == 0
  {
    var turns := [Chunk(INITIAL_SAMPLE_SIZE, None, true), Chunk(1, None, true)];
    var sample := SampleRun(input, 0, turns, 0);
    assert sample == Sample(input[..INITIAL_SAMPLE_SIZE], Full, 1);
    assert input[..INITIAL_SAMPLE_SIZE] == input && input[INITIAL_SAMPLE_SIZE..] == [];
    assert turns[1..] == [Chunk(1, None, true)];
    var c := SettingsFor(AnalyzeTrafficPattern(|sample.bytes|, false));
    var s := AfterSample(input, sample, SampleWrite(None, true));
    assert Step(c, s, turns[1]).status == Done;
    assert Run(c, s, turns[1..]) == Run(c, Step(c, s, turns[1]), turns[1..][1..]);
  }

  /** After the sample, chunks shorter than 64 KiB are flushed at once, and longer
      stretches every 128 KiB. */
  lemma AdaptiveFlushesExactly(input: Bytes, turns: seq<Turn>, s: State, t: Turn)
    requires SampleRun(input, 0, turns, 0).outcome == Full
    requires s.status == Running && s.total == |s.output|
    ensures var c := SettingsFor(AnalyzeTrafficPattern(|SampleRun(input, 0, turns, 0).bytes|, false));
      var m := Step(c, s, t);
      var n := m.total - s.total;
      m.status == Running && n > 0 ==>
        (m.flushed, m.lastFlush) ==
          if m.total - s.lastFlush >= 128 * 1024 || n < 64 * 1024 then (m.total, m.total) else (s.flushed, s.lastFlush)
  {
    FlushesExactly(SettingsFor(AnalyzeTrafficPattern(|SampleRun(input, 0, turns, 0).bytes|, false)), s, t);
  }
}
