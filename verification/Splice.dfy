/** The splice-through-a-pipe loops: socket to pipe, pipe to socket, under any
    schedule of kernel answers. */
module Splice {
  import opened Basics

  /** The kernel's answer to one splice call; a move is cut to what the call
      asked for and what there is. */
  datatype Answer = Moves(upTo: nat) | WouldBlock | Interrupted | Failure

  /** The two loops treat errors differently: the first breaks out of the inner
      loop and carries on, the second retries interrupts and returns errors. */
  datatype Engine = BreakOnError | ReturnError

  datatype Status = Running | EndOfInput | Broken | Returned

  /** `left` bytes remain for the inner loop, none when the outer loop reads;
      `shortfall` sums what inner loops left undone. */
  datatype State = State(unread: Bytes, pipe: Bytes, output: Bytes, total: nat, left: nat, shortfall: nat, status: Status)

  function Start(input: Bytes): State {
    State(input, [], [], 0, 0, 0, Running)
  }

  /** Leave the inner loop early. */
  function AbandonDrain(s: State): State {
    s.(shortfall := s.shortfall + s.left, left := 0)
  }

  function Step(engine: Engine, chunk: nat, s: State, a: Answer): State
    requires s.left <= |s.pipe|
  {
    match a
    case WouldBlock => s
    case Moves(k) =>
      if s.left == 0 then
        var n := Min(Min(k, chunk), |s.unread|);
        if n == 0 then s.(status := EndOfInput)
        else s.(unread := s.unread[n..], pipe := s.pipe + s.unread[..n], left := n)
      else
        var w := Min(k, s.left);
        if w == 0 then AbandonDrain(s)
        else s.(pipe := s.pipe[w..], output := s.output + s.pipe[..w], total := s.total + w, left := s.left - w)
    case Interrupted =>
      if engine == ReturnError then s else Stop(engine, s)
    case Failure => Stop(engine, s)
  }

  function Stop(engine: Engine, s: State): State {
    if engine == ReturnError then AbandonDrain(s).(status := Returned)
    else if s.left == 0 then s.(status := Broken)
    else AbandonDrain(s)
  }

  /** The pipe holds what is left to drain and what was abandoned in it. */
  predicate Sound(s: State) {
    |s.pipe| == s.shortfall + s.left
  }

  /** The state after a schedule of answers; answers after the end are ignored. */
  function Run(engine: Engine, chunk: nat, s: State, answers: seq<Answer>): (t: State)
    requires Sound(s)
    ensures Sound(t)
    decreases |answers|
  {
    if answers == [] || s.status != Running then s
    else Run(engine, chunk, Step(engine, chunk, s, answers[0]), answers[1..])
  }

  /** Nothing is created, lost or reordered between the three places. */
  ghost predicate Conserved(input: Bytes, s: State) {
    && s.output + s.pipe + s.unread == input
    && s.total == |s.output|
    && Sound(s)
  }

  lemma StepConserves(engine: Engine, chunk: nat, input: Bytes, s: State, a: Answer)
    requires Conserved(input, s)
    ensures Conserved(input, Step(engine, chunk, s, a))
  {
    var t := Step(engine, chunk, s, a);
    assert t.output + t.pipe + t.unread == s.output + s.pipe + s.unread;
  }

  /** Once the loop has ended, everything arrived exactly if everything was read
      and nothing is short. */
  lemma {:induction false} EndOfRun(engine: Engine, chunk: nat, input: Bytes, s: State, answers: seq<Answer>)
    requires Conserved(input, s) && (s.status != Running ==> s.left == 0)
    ensures var t := Run(engine, chunk, s, answers);
      && Conserved(input, t)
      && t.output <= input
      && (t.status != Running ==>
            && t.left == 0 && |t.pipe| == t.shortfall
            && (t.output == input <==> t.unread == [] && t.shortfall == 0))
    decreases |answers|
  {
    if answers == [] || s.status != Running {
      assert s.output + s.pipe + s.unread == s.output + (s.pipe + s.unread);
      assert |input| == |s.output| + |s.pipe| + |s.unread|;
    } else {
      StepConserves(engine, chunk, input, s, answers[0]);
      EndOfRun(engine, chunk, input, Step(engine, chunk, s, answers[0]), answers[1..]);
    }
  }

  lemma StartConserved(input: Bytes)
    ensures Conserved(input, Start(input))
  {
    assert [] + [] + input == input;
  }

  function After(engine: Engine, chunk: nat, input: Bytes, answers: seq<Answer>): State {
    Run(engine, chunk, Start(input), answers)
  }

  // Which schedules lose bytes

  /** An answer that moves nothing and is not retried. */
  predicate Idle(engine: Engine, a: Answer) {
    a == Moves(0) || a == Failure || (a == Interrupted && engine == BreakOnError)
  }

  /** The inner loop is left with bytes still to drain. */
  predicate Abandons(engine: Engine, s: State, a: Answer) {
    s.left > 0 && Idle(engine, a)
  }

  /** The outer loop is left with bytes still to read. */
  predicate StopsShort(engine: Engine, chunk: nat, s: State, a: Answer) {
    s.left == 0 && s.unread != [] && (Idle(engine, a) || (a.Moves? && chunk == 0))
  }

  ghost predicate NeverAbandons(engine: Engine, chunk: nat, s: State, answers: seq<Answer>)
    requires Sound(s)
    decreases |answers|
  {
    answers == [] || s.status != Running
    || (!Abandons(engine, s, answers[0])
        && NeverAbandons(engine, chunk, Step(engine, chunk, s, answers[0]), answers[1..]))
  }

  ghost predicate NeverStopsShort(engine: Engine, chunk: nat, s: State, answers: seq<Answer>)
    requires Sound(s)
    decreases |answers|
  {
    answers == [] || s.status != Running
    || (!StopsShort(engine, chunk, s, answers[0])
        && NeverStopsShort(engine, chunk, Step(engine, chunk, s, answers[0]), answers[1..]))
  }

  lemma {:induction false} ShortfallGrows(engine: Engine, chunk: nat, s: State, answers: seq<Answer>)
    requires Sound(s)
    ensures Run(engine, chunk, s, answers).shortfall >= s.shortfall
    decreases |answers|
  {
    if answers != [] && s.status == Running {
      ShortfallGrows(engine, chunk, Step(engine, chunk, s, answers[0]), answers[1..]);
    }
  }

  lemma {:induction false} ShortfallExactly(engine: Engine, chunk: nat, s: State, answers: seq<Answer>)
    requires Sound(s) && s.shortfall == 0
    ensures Run(engine, chunk, s, answers).shortfall == 0 <==> NeverAbandons(engine, chunk, s, answers)
    decreases |answers|
  {
    if answers != [] && s.status == Running {
      var t := Step(engine, chunk, s, answers[0]);
      if Abandons(engine, s, answers[0]) {
        ShortfallGrows(engine, chunk, t, answers[1..]);
      } else {
        ShortfallExactly(engine, chunk, t, answers[1..]);
      }
    }
  }

  lemma {:induction false} ReadAllExactly(engine: Engine, chunk: nat, s: State, answers: seq<Answer>)
    requires Sound(s) && NeverAbandons(engine, chunk, s, answers) && (s.status != Running ==> s.unread == [])
    ensures var t := Run(engine, chunk, s, answers);
      t.status != Running ==> (t.unread == [] <==> NeverStopsShort(engine, chunk, s, answers))
    decreases |answers|
  {
    if answers != [] && s.status == Running {
      var t := Step(engine, chunk, s, answers[0]);
      if StopsShort(engine, chunk, s, answers[0]) {
        assert t.status != Running && t.unread == s.unread;
      } else {
        ReadAllExactly(engine, chunk, t, answers[1..]);
      }
    }
  }

  /** Bytes are always written in order, and nothing is abandoned in the pipe
      exactly when no answer makes the inner loop give up. A finished loop has
      written everything exactly when, besides, none makes the outer loop give up
      before the end of input. */
  lemma CompleteExactly(engine: Engine, chunk: nat, input: Bytes, answers: seq<Answer>)
    ensures var s, t := Start(input), After(engine, chunk, input, answers);
      && Conserved(input, t)
      && t.output <= input
      && (t.shortfall == 0 <==> NeverAbandons(engine, chunk, s, answers))
      && (t.status != Running ==>
            && |t.pipe| == t.shortfall
            && (t.output == input <==>
                  NeverAbandons(engine, chunk, s, answers) && NeverStopsShort(engine, chunk, s, answers)))
  {
    StartConserved(input);
    EndOfRun(engine, chunk, input, Start(input), answers);
    ShortfallExactly(engine, chunk, Start(input), answers);
    if NeverAbandons(engine, chunk, Start(input), answers) {
      ReadAllExactly(engine, chunk, Start(input), answers);
    }
  }

  /** A kernel that never fails, and moves nothing only at the end of input. */
  ghost predicate Healthy(engine: Engine, answers: seq<Answer>) {
    forall i :: 0 <= i < |answers| ==>
      answers[i] == WouldBlock || (answers[i].Moves? && answers[i].upTo > 0)
      || (answers[i] == Interrupted && engine == ReturnError)
  }

  lemma {:induction false} HealthyRun(engine: Engine, chunk: nat, s: State, answers: seq<Answer>)
    requires chunk > 0 && Healthy(engine, answers) && Sound(s)
    requires s.shortfall == 0 && (s.status == Running || (s.status == EndOfInput && s.unread == []))
    ensures var t := Run(engine, chunk, s, answers);
      t.shortfall == 0 && (t.status == Running || (t.status == EndOfInput && t.unread == []))
    decreases |answers|
  {
    if answers != [] && s.status == Running {
      assert answers[0] == WouldBlock || answers[0].Moves? || engine == ReturnError;
      HealthyRun(engine, chunk, Step(engine, chunk, s, answers[0]), answers[1..]);
    }
  }

  /** Over a healthy kernel, output is always an in-order prefix and a finished
      loop has written all of the input. */
  lemma CleanTransfer(engine: Engine, chunk: nat, input: Bytes, answers: seq<Answer>)
    requires chunk > 0 && Healthy(engine, answers)
    ensures var t := After(engine, chunk, input, answers);
      && t.output <= input
      && (t.status != Running ==> t.status == EndOfInput && t.output == input && t.total == |input| && t.pipe == [])
  {
    StartConserved(input);
    EndOfRun(engine, chunk, input, Start(input), answers);
    HealthyRun(engine, chunk, Start(input), answers);
  }

  // How a loop ends

  lemma {:induction false} RunSnoc(engine: Engine, chunk: nat, s: State, answers: seq<Answer>)
    requires Sound(s) && answers != []
    ensures var n := |answers| - 1;
      var t := Run(engine, chunk, s, answers[..n]);
      Run(engine, chunk, s, answers) == if t.status == Running then Step(engine, chunk, t, answers[n]) else t
    decreases |answers|
  {
    var n := |answers| - 1;
    if s.status == Running && n > 0 {
      RunSnoc(engine, chunk, Step(engine, chunk, s, answers[0]), answers[1..]);
      assert answers[1..][..n - 1] == answers[..n][1..];
    }
  }

  /** The answer at i ends a loop that still ran, by the outer loop finding nothing
      to read. */
  ghost predicate EndsAt(engine: Engine, chunk: nat, input: Bytes, answers: seq<Answer>, i: nat)
    requires i < |answers|
  {
    var s := After(engine, chunk, input, answers[..i]);
    && s.status == Running && s.left == 0 && answers[i].Moves?
    && (answers[i].upTo == 0 || chunk == 0 || s.unread == [])
  }

  /** The answer at i ends the first loop by an error of its outer call. */
  ghost predicate BreaksAt(chunk: nat, input: Bytes, answers: seq<Answer>, i: nat)
    requires i < |answers|
  {
    var s := After(BreakOnError, chunk, input, answers[..i]);
    s.status == Running && s.left == 0 && (answers[i] == Failure || answers[i] == Interrupted)
  }

  /** The answer at i ends the blocking loop by an error of either call. */
  ghost predicate ReturnsAt(chunk: nat, input: Bytes, answers: seq<Answer>, i: nat)
    requires i < |answers|
  {
    After(ReturnError, chunk, input, answers[..i]).status == Running && answers[i] == Failure
  }

  /** Which status each loop ends with: both report the end of input exactly where
      the outer call moves nothing; the first merely leaves its loop on an outer
      error, the second returns every error that is not an interrupt. */
  lemma {:induction false} EndsExactly(engine: Engine, chunk: nat, input: Bytes, answers: seq<Answer>)
    ensures var t := After(engine, chunk, input, answers);
      && (t.status == EndOfInput <==> exists i :: 0 <= i < |answers| && EndsAt(engine, chunk, input, answers, i))
      && (t.status == Broken <==>
            engine == BreakOnError && exists i :: 0 <= i < |answers| && BreaksAt(chunk, input, answers, i))
      && (t.status == Returned <==>
            engine == ReturnError && exists i :: 0 <= i < |answers| && ReturnsAt(chunk, input, answers, i))
    decreases |answers|
  {
    if answers != [] {
      var n := |answers| - 1;
      var init := answers[..n];
      EndsExactly(engine, chunk, input, init);
      RunSnoc(engine, chunk, Start(input), answers);
      forall i | 0 <= i < n
        ensures EndsAt(engine, chunk, input, init, i) <==> EndsAt(engine, chunk, input, answers, i)
        ensures BreaksAt(chunk, input, init, i) <==> BreaksAt(chunk, input, answers, i)
        ensures ReturnsAt(chunk, input, init, i) <==> ReturnsAt(chunk, input, answers, i)
      {
        assert init[..i] == answers[..i];
      }
      LastEnds(engine, chunk, input, answers);
    }
  }

  lemma LastEnds(engine: Engine, chunk: nat, input: Bytes, answers: seq<Answer>)
    requires answers != []
    ensures var n := |answers| - 1;
      var s := After(engine, chunk, input, answers[..n]);
      var t := Step(engine, chunk, s, answers[n]);
      s.status == Running ==>
        && (t.status == EndOfInput <==> EndsAt(engine, chunk, input, answers, n))
        && (t.status == Broken <==> engine == BreakOnError && BreaksAt(chunk, input, answers, n))
        && (t.status == Returned <==> engine == ReturnError && ReturnsAt(chunk, input, answers, n))
  {}

  const ZERO_COPY_CHUNK: nat := 128 * 1024

  /** The other side: a single failed call makes the first loop report success
      after silently keeping a byte in the pipe. */
  lemma SilentLoss(b: byte)
    ensures var t := After(BreakOnError, 128 * 1024, [b], [Moves(1), Failure, Moves(1)]);
      t.status == EndOfInput && t.output == [] && t.pipe == [b]
  {
    var s1 := Step(BreakOnError, ZERO_COPY_CHUNK, Start([b]), Moves(1));
    var s2 := Step(BreakOnError, ZERO_COPY_CHUNK, s1, Failure);
    assert [Moves(1), Failure, Moves(1)][1..] == [Failure, Moves(1)];
    assert [Failure, Moves(1)][1..] == [Moves(1)];
    assert s1.pipe == [b] && s1.left == 1;
    assert s2.left == 0 && s2.unread == [];
    var s3 := Step(BreakOnError, ZERO_COPY_CHUNK, s2, Moves(1));
    assert s3.status == EndOfInput;
  }

  // The loops themselves

  /** One more answer consumed. */
  lemma Advance(engine: Engine, chunk: nat, s: State, answers: seq<Answer>, i: nat)
    requires i < |answers| && s.status == Running && Sound(s)
    ensures var t := Step(engine, chunk, s, answers[i]);
      Sound(t) && Run(engine, chunk, s, answers[i..]) == Run(engine, chunk, t, answers[i + 1..])
  {
    assert answers[i..][1..] == answers[i + 1..];
  }

  function Buffers(s: State): (Bytes, Bytes, Bytes) {
    (s.unread, s.pipe, s.output)
  }

  /** One direction of the bidirectional forwarder. The buffers are what the
      kernel holds on either side. */
  method ZeroCopyDirection(input: Bytes, answers: seq<Answer>)
    returns (status: Status, total: nat, unread: Bytes, pipe: Bytes, output: Bytes)
    ensures var end := After(BreakOnError, 128 * 1024, input, answers);
      Buffers(end) == (unread, pipe, output) && total == end.total && status == end.status
  {
    unread, pipe, output, total, status := input, [], [], 0, Running;
    ghost var end := Start(input);
    ghost var goal := Run(BreakOnError, ZERO_COPY_CHUNK, end, answers);
    assert answers[0..] == answers;
    var i := 0;
    while i < |answers| && status == Running
      invariant 0 <= i <= |answers|
      invariant end == State(unread, pipe, output, total, 0, end.shortfall, status) && Sound(end)
      invariant goal == Run(BreakOnError, ZERO_COPY_CHUNK, end, answers[i..])
    {
      var a := answers[i];
      Advance(BreakOnError, ZERO_COPY_CHUNK, end, answers, i);
      end := Step(BreakOnError, ZERO_COPY_CHUNK, end, a);
      i := i + 1;
      match a
      case WouldBlock =>
      case Interrupted => status := Broken;
      case Failure => status := Broken;
      case Moves(k) =>
        var n := Min(Min(k, ZERO_COPY_CHUNK), |unread|);
        if n == 0 {
          status := EndOfInput;
        } else {
          pipe, unread := pipe + unread[..n], unread[n..];
          var written := 0;
          while written < n
            invariant 0 <= written <= n && 0 <= i <= |answers|
            invariant end == State(unread, pipe, output, total, n - written, end.shortfall, Running) && Sound(end)
            invariant goal == Run(BreakOnError, ZERO_COPY_CHUNK, end, answers[i..])
            decreases |answers| - i
          {
            if i == |answers| {
              return;
            }
            var b := answers[i];
            Advance(BreakOnError, ZERO_COPY_CHUNK, end, answers, i);
            end := Step(BreakOnError, ZERO_COPY_CHUNK, end, b);
            i := i + 1;
            match b
            case WouldBlock =>
            case Interrupted => break;
            case Failure => break;
            case Moves(m) =>
              var w := Min(m, n - written);
              if w == 0 {
                break;
              }
              output, pipe := output + pipe[..w], pipe[w..];
              written := written + w;
              total := total + w;
          }
        }
    }
  }

  /** The blocking loop of the optimiser, for any chunk size. */
  method SpliceBlocking(input: Bytes, chunk: nat, answers: seq<Answer>)
    returns (status: Status, total: nat, unread: Bytes, pipe: Bytes, output: Bytes)
    ensures var end := After(ReturnError, chunk, input, answers);
      Buffers(end) == (unread, pipe, output) && total == end.total && status == end.status
  {
    unread, pipe, output, total, status := input, [], [], 0, Running;
    ghost var end := Start(input);
    ghost var goal := Run(ReturnError, chunk, end, answers);
    assert answers[0..] == answers;
    var i := 0;
    while i < |answers| && status == Running
      invariant 0 <= i <= |answers|
      invariant end == State(unread, pipe, output, total, 0, end.shortfall, status) && Sound(end)
      invariant goal == Run(ReturnError, chunk, end, answers[i..])
    {
      var a := answers[i];
      Advance(ReturnError, chunk, end, answers, i);
      end := Step(ReturnError, chunk, end, a);
      i := i + 1;
      match a
      case WouldBlock =>
      case Interrupted =>
      case Failure => status := Returned;
      case Moves(k) =>
        var n := Min(Min(k, chunk), |unread|);
        if n == 0 {
          status := EndOfInput;
        } else {
          pipe, unread := pipe + unread[..n], unread[n..];
          var remaining := n;
          while remaining > 0
            invariant 0 <= remaining <= n && 0 <= i <= |answers|
            invariant end == State(unread, pipe, output, total, remaining, end.shortfall, Running) && Sound(end)
            invariant goal == Run(ReturnError, chunk, end, answers[i..])
            decreases |answers| - i
          {
            if i == |answers| {
              return;
            }
            var b := answers[i];
            Advance(ReturnError, chunk, end, answers, i);
            end := Step(ReturnError, chunk, end, b);
            i := i + 1;
            match b
            case WouldBlock =>
            case Interrupted =>
            case Failure =>
              status := Returned;
              return;
            case Moves(m) =>
              var w := Min(m, remaining);
              if w == 0 {
                break;
              }
              output, pipe := output + pipe[..w], pipe[w..];
              remaining := remaining - w;
              total := total + w;
          }
        }
    }
  }
}
