/** Connections that survive a break: retrying, and the data a session still
    has to send. */
module Resilient {
  import opened Basics
  import opened Backoff

  type SessionId = nat

  type RecoveryId = nat

  /** Nanoseconds of a monotonic clock. */
  type Time = nat

  const SESSION_TIMEOUT: nat := 300 * SECOND

  // The books of one session

  /** The nr-th packet ever cached. */
  datatype Packet = Packet(nr: nat, data: Bytes)

  /** What a recovery took out, while it tries to connect. */
  datatype Flight = Flight(recovery: RecoveryId, packets: seq<Packet>)

  /** `waiting` recoveries have looked the session up and not yet taken its data,
      so they can still reach it when it is no longer `present` in the table.
      `delivered` went back to the caller with a new connection; `lost` did not,
      and nobody can reach it any more. */
  datatype Ledger = Ledger(
    present: bool,
    waiting: set<RecoveryId>,
    used: set<RecoveryId>,
    pending: seq<Packet>,
    inFlight: seq<Flight>,
    cached: seq<Packet>,
    delivered: seq<Packet>,
    lost: seq<Packet>)

  /** `Sweep` is the clean-up that finds the session expired. */
  datatype Op = CacheData(data: Bytes) | Lookup(r: RecoveryId) | Take(r: RecoveryId) | Settle(r: RecoveryId, ok: bool) | Sweep

  const EMPTY := Ledger(true, {}, {}, [], [], [], [], [])

  function FlightOf(fs: seq<Flight>, r: RecoveryId): (k: nat)
    ensures k <= |fs|
    ensures k < |fs| ==> fs[k].recovery == r
    ensures forall j :: 0 <= j < k ==> fs[j].recovery != r
  {
    if fs == [] || fs[0].recovery == r then 0 else 1 + FlightOf(fs[1..], r)
  }

  function Flat(fs: seq<Flight>): seq<Packet> {
    if fs == [] then [] else Flat(fs[..|fs| - 1]) + fs[|fs| - 1].packets
  }

  /** Operations on a session that is gone, or of recoveries at another point,
      change nothing. */
  function Step(l: Ledger, op: Op): Ledger {
    match op
    case CacheData(data) =>
      if !l.present then l
      else var p := Packet(|l.cached|, data); l.(pending := l.pending + [p], cached := l.cached + [p])
    case Lookup(r) =>
      if !l.present || r in l.used then l else l.(waiting := l.waiting + {r}, used := l.used + {r})
    case Take(r) =>
      if r !in l.waiting then l
      else l.(waiting := l.waiting - {r}, pending := [], inFlight := l.inFlight + [Flight(r, l.pending)])
    case Settle(r, ok) =>
      var k := FlightOf(l.inFlight, r);
      if k == |l.inFlight| then l
      else Landed(l.(inFlight := l.inFlight[..k] + l.inFlight[k + 1..]), l.inFlight[k].packets, ok)
    case Sweep =>
      if !l.present then l
      else if l.waiting == {} then l.(present := false, pending := [], lost := l.lost + l.pending)
      else l.(present := false)
  }

  function Landed(l: Ledger, packets: seq<Packet>, ok: bool): Ledger {
    if ok then l.(delivered := l.delivered + packets) else l.(lost := l.lost + packets)
  }

  function After(ops: seq<Op>): Ledger {
    if ops == [] then EMPTY else Step(After(ops[..|ops| - 1]), ops[|ops| - 1])
  }

  lemma {:induction false} FlatConcat(a: seq<Flight>, b: seq<Flight>)
    ensures Flat(a + b) == Flat(a) + Flat(b)
  {
    if b == [] {
      assert a + b == a;
    } else {
      var init, last := b[..|b| - 1], b[|b| - 1];
      FlatConcat(a, init);
      assert (a + b)[..|a + b| - 1] == a + init;
      assert Flat(a + b) == Flat(a + init) + last.packets;
      assert Flat(a) + Flat(init) + last.packets == Flat(a) + (Flat(init) + last.packets);
    }
  }

  lemma FlatAppend(fs: seq<Flight>, f: Flight)
    ensures Flat(fs + [f]) == Flat(fs) + f.packets
  {
    assert (fs + [f])[..|fs|] == fs;
  }

  lemma FlatAround(x: seq<Flight>, f: Flight, y: seq<Flight>)
    ensures Flat(x + [f] + y) == Flat(x) + f.packets + Flat(y)
    ensures Flat(x + y) == Flat(x) + Flat(y)
  {
    FlatConcat(x + [f], y);
    FlatAppend(x, f);
    FlatConcat(x, y);
  }

  /** What is in flight, cut at one flight: what was taken before, what after. */
  lemma FlatCut(fs: seq<Flight>, k: nat) returns (before: seq<Packet>, after: seq<Packet>)
    requires k < |fs|
    ensures before == Flat(fs[..k])
    ensures Flat(fs) == before + fs[k].packets + after
    ensures Flat(fs[..k] + fs[k + 1..]) == before + after
  {
    var x, f, y := fs[..k], fs[k], fs[k + 1..];
    assert fs == x + [f] + y;
    FlatAround(x, f, y);
    before, after := Flat(x), Flat(y);
  }

  // Nothing appears or vanishes

  ghost predicate Balanced(l: Ledger) {
    && multiset(l.cached) == multiset(l.delivered) + multiset(l.lost) + multiset(Flat(l.inFlight)) + multiset(l.pending)
    && |l.cached| == |l.delivered| + |l.lost| + |Flat(l.inFlight)| + |l.pending|
  }

  /** How l becomes m when `here` lands, with `before` and `after` around it. */
  ghost predicate Lands(l: Ledger, m: Ledger, before: seq<Packet>, here: seq<Packet>, after: seq<Packet>, ok: bool) {
    && Flat(l.inFlight) == before + here + after && Flat(m.inFlight) == before + after
    && m.pending == l.pending && m.cached == l.cached
    && m.delivered == l.delivered + (if ok then here else [])
    && m.lost == l.lost + (if ok then [] else here)
  }

  lemma Settled(l: Ledger, r: RecoveryId, ok: bool)
    requires FlightOf(l.inFlight, r) < |l.inFlight|
    ensures var k, m := FlightOf(l.inFlight, r), Step(l, Settle(r, ok));
      var here := l.inFlight[k].packets;
      && m.inFlight == l.inFlight[..k] + l.inFlight[k + 1..]
      && m.pending == l.pending && m.cached == l.cached
      && m.delivered == l.delivered + (if ok then here else [])
      && m.lost == l.lost + (if ok then [] else here)
  {}

  lemma SettleLands(l: Ledger, r: RecoveryId, ok: bool) returns (before: seq<Packet>, after: seq<Packet>)
    requires FlightOf(l.inFlight, r) < |l.inFlight|
    ensures var k := FlightOf(l.inFlight, r);
      before == Flat(l.inFlight[..k]) && Lands(l, Step(l, Settle(r, ok)), before, l.inFlight[k].packets, after, ok)
  {
    before, after := FlatCut(l.inFlight, FlightOf(l.inFlight, r));
    Settled(l, r, ok);
  }

  lemma SettleBalances(l: Ledger, r: RecoveryId, ok: bool)
    requires Balanced(l)
    ensures Balanced(Step(l, Settle(r, ok)))
  {
    var k := FlightOf(l.inFlight, r);
    if k < |l.inFlight| {
      var before, after := SettleLands(l, r, ok);
      LandingBalances(l, Step(l, Settle(r, ok)), before, l.inFlight[k].packets, after, ok);
    }
  }

  lemma LandingBalances(l: Ledger, m: Ledger, x: seq<Packet>, p: seq<Packet>, y: seq<Packet>, ok: bool)
    requires Balanced(l) && Lands(l, m, x, p, y, ok)
    ensures Balanced(m)
  {
    assert multiset(x + p + y) == multiset(x + y) + multiset(p);
  }

  lemma TakeBalances(l: Ledger, r: RecoveryId)
    requires Balanced(l)
    ensures Balanced(Step(l, Take(r)))
  {
    FlatAppend(l.inFlight, Flight(r, l.pending));
  }

  lemma OthersBalance(l: Ledger, op: Op)
    requires Balanced(l) && !op.Settle? && !op.Take?
    ensures Balanced(Step(l, op))
  {}

  lemma StepBalances(l: Ledger, op: Op)
    requires Balanced(l)
    ensures Balanced(Step(l, op))
  {
    match op
    case Take(r) => TakeBalances(l, r);
    case Settle(r, ok) => SettleBalances(l, r, ok);
    case _ => OthersBalance(l, op);
  }

  /** In every run all that was cached is pending, in flight, delivered or lost,
      exactly once. */
  lemma {:induction false} LedgerBalances(ops: seq<Op>)
    ensures Balanced(After(ops))
  {
    if ops != [] {
      LedgerBalances(ops[..|ops| - 1]);
      StepBalances(After(ops[..|ops| - 1]), ops[|ops| - 1]);
    }
  }

  // What is lost

  /** A reconnection only fails when it holds nothing, and a session is only swept
      when nothing is pending in it or a recovery can still take it. */
  predicate LosesNothing(l: Ledger, op: Op) {
    match op
    case Settle(r, false) =>
      var k := FlightOf(l.inFlight, r);
      k < |l.inFlight| ==> l.inFlight[k].packets == []
    case Sweep => l.present && l.waiting == {} ==> l.pending == []
    case _ => true
  }

  /** Every operation of a run is good where it happens. */
  ghost predicate Always(good: (Ledger, Op) -> bool, ops: seq<Op>) {
    forall i :: 0 <= i < |ops| ==> good(After(ops[..i]), ops[i])
  }

  lemma AlwaysSnoc(good: (Ledger, Op) -> bool, ops: seq<Op>)
    requires ops != []
    ensures var n := |ops| - 1;
      Always(good, ops) <==> Always(good, ops[..n]) && good(After(ops[..n]), ops[n])
  {
    var n := |ops| - 1;
    assert forall i :: 0 <= i < n ==> ops[..n][..i] == ops[..i] && ops[..n][i] == ops[i];
  }

  lemma LostOnlyThere(l: Ledger, op: Op)
    ensures Step(l, op).lost == [] <==> l.lost == [] && LosesNothing(l, op)
  {
    if op.Settle? {
      if FlightOf(l.inFlight, op.r) < |l.inFlight| {
        Settled(l, op.r, op.ok);
      }
    }
  }

  /** Nothing is lost exactly when every operation loses nothing. */
  lemma {:induction false} LostExactly(ops: seq<Op>)
    ensures After(ops).lost == [] <==> Always(LosesNothing, ops)
  {
    if ops != [] {
      var n := |ops| - 1;
      LostExactly(ops[..n]);
      LostOnlyThere(After(ops[..n]), ops[n]);
      AlwaysSnoc(LosesNothing, ops);
    }
  }

  // What arrives in order

  /** A reconnection that brings data back finds no data in flight that was taken
      before. */
  predicate InOrder(l: Ledger, op: Op) {
    match op
    case Settle(r, true) =>
      var k := FlightOf(l.inFlight, r);
      k < |l.inFlight| && l.inFlight[k].packets != [] ==> Flat(l.inFlight[..k]) == []
    case _ => true
  }

  ghost predicate Ordered(l: Ledger) {
    l.delivered + Flat(l.inFlight) + l.pending == l.cached
  }

  /** Beyond repair. */
  ghost predicate Broken(l: Ledger) {
    l.lost != [] || !(l.delivered <= l.cached)
  }

  ghost predicate Numbered(l: Ledger) {
    forall k :: 0 <= k < |l.cached| ==> l.cached[k].nr == k
  }

  /** Packets y brought back while x, taken before them, is still in flight. */
  lemma Overtakes(cached: seq<Packet>, d: seq<Packet>, x: seq<Packet>, y: seq<Packet>, rest: seq<Packet>)
    requires cached == d + (x + y + rest) && x != [] && y != []
    requires forall k :: 0 <= k < |cached| ==> cached[k].nr == k
    ensures !(d + y <= cached)
  {
    var n := |d|;
    assert cached[n] == x[0] && cached[n + |x|] == y[0];
    assert (d + y)[n] == y[0];
  }

  lemma SettleOrders(l: Ledger, r: RecoveryId, ok: bool)
    requires Ordered(l) && Numbered(l)
    ensures var m := Step(l, Settle(r, ok));
      if LosesNothing(l, Settle(r, ok)) && InOrder(l, Settle(r, ok)) then Ordered(m) else Broken(m)
  {
    var k := FlightOf(l.inFlight, r);
    if k < |l.inFlight| {
      var here := l.inFlight[k].packets;
      var before, after := SettleLands(l, r, ok);
      Landing(l, Step(l, Settle(r, ok)), before, here, after, ok);
    }
  }

  lemma Landing(l: Ledger, m: Ledger, before: seq<Packet>, here: seq<Packet>, after: seq<Packet>, ok: bool)
    requires Ordered(l) && Numbered(l) && Lands(l, m, before, here, after, ok)
    ensures if here == [] || (ok && before == []) then Ordered(m) else Broken(m)
  {
    if here == [] {
      assert before + here + after == before + after;
      assert l.delivered + [] == l.delivered;
    } else if ok && before == [] {
      Rejoin(l.delivered, before, here, after, l.pending);
    } else if ok {
      assert l.delivered + (before + here + after) + l.pending == l.delivered + (before + here + (after + l.pending));
      Overtakes(l.cached, l.delivered, before, here, after + l.pending);
    }
  }

  lemma Rejoin(d: seq<Packet>, x: seq<Packet>, y: seq<Packet>, z: seq<Packet>, p: seq<Packet>)
    requires x == []
    ensures (d + y) + (x + z) + p == d + (x + y + z) + p
  {}

  lemma StepOrders(l: Ledger, op: Op)
    requires Ordered(l) && Numbered(l)
    ensures if LosesNothing(l, op) && InOrder(l, op) then Ordered(Step(l, op)) else Broken(Step(l, op))
  {
    match op
    case CacheData(data) =>
      if l.present {
        var p := Packet(|l.cached|, data);
        assert l.delivered + Flat(l.inFlight) + (l.pending + [p]) == l.delivered + Flat(l.inFlight) + l.pending + [p];
      }
    case Take(r) =>
      FlatAppend(l.inFlight, Flight(r, l.pending));
      assert l.delivered + (Flat(l.inFlight) + l.pending) + [] == l.delivered + Flat(l.inFlight) + l.pending;
    case Settle(r, ok) => SettleOrders(l, r, ok);
    case _ =>
  }

  lemma BrokenStays(l: Ledger, op: Op)
    requires Broken(l) && |l.delivered| <= |l.cached|
    ensures Broken(Step(l, op))
  {
    var m := Step(l, op);
    assert l.cached <= m.cached && l.delivered <= m.delivered && |l.lost| <= |m.lost|;
    if !(l.delivered <= l.cached) {
      var k :| 0 <= k < |l.delivered| && l.delivered[k] != l.cached[k];
      assert m.delivered[k] == l.delivered[k] && m.cached[k] == l.cached[k];
    }
  }

  lemma OrderedIsNotBroken(l: Ledger)
    requires Ordered(l) && Balanced(l)
    ensures !Broken(l)
  {
    assert l.cached == l.delivered + (Flat(l.inFlight) + l.pending);
  }

  lemma {:induction false} NumberedAlways(ops: seq<Op>)
    ensures Numbered(After(ops))
  {
    if ops != [] {
      NumberedAlways(ops[..|ops| - 1]);
    }
  }

  lemma SoundLedger(ops: seq<Op>)
    ensures Balanced(After(ops)) && Numbered(After(ops)) && |After(ops).delivered| <= |After(ops).cached|
  {
    LedgerBalances(ops);
    NumberedAlways(ops);
  }

  lemma {:induction false} OrderedOrBroken(ops: seq<Op>)
    ensures if Always(LosesNothing, ops) && Always(InOrder, ops) then Ordered(After(ops)) else Broken(After(ops))
  {
    if ops != [] {
      var n := |ops| - 1;
      OrderedOrBroken(ops[..n]);
      SoundLedger(ops[..n]);
      NextOrderedOrBroken(After(ops[..n]), ops[n]);
      AlwaysSnoc(LosesNothing, ops);
      AlwaysSnoc(InOrder, ops);
    }
  }

  lemma NextOrderedOrBroken(l: Ledger, op: Op)
    requires Numbered(l) && |l.delivered| <= |l.cached|
    ensures Ordered(l) && LosesNothing(l, op) && InOrder(l, op) ==> Ordered(Step(l, op))
    ensures Ordered(l) && !(LosesNothing(l, op) && InOrder(l, op)) ==> Broken(Step(l, op))
    ensures Broken(l) ==> Broken(Step(l, op))
  {
    if Ordered(l) {
      StepOrders(l, op);
    }
    if Broken(l) {
      BrokenStays(l, op);
    }
  }

  /** Delivered, in flight and pending are the cached data in order, exactly when
      no operation lost any and no reconnection overtook an earlier one. */
  lemma NothingLostExactly(ops: seq<Op>)
    ensures Ordered(After(ops)) <==> Always(LosesNothing, ops) && Always(InOrder, ops)
  {
    OrderedOrBroken(ops);
    if Ordered(After(ops)) {
      LedgerBalances(ops);
      OrderedIsNotBroken(After(ops));
    }
  }

  lemma AfterSnoc(ops: seq<Op>, op: Op)
    ensures After(ops + [op]) == Step(After(ops), op)
  {
    assert (ops + [op])[..|ops|] == ops;
  }

  /** Two recoveries that overlap, and the second brings its data back first. */
  lemma OvertakingExample(a: Bytes, b: Bytes) returns (ops: seq<Op>)
    ensures ops == [CacheData(a), Lookup(0), Take(0), CacheData(b), Lookup(1), Take(1)] + [Settle(1, true), Settle(0, true)]
    ensures After(ops).lost == [] && After(ops).cached == [Packet(0, a), Packet(1, b)]
    ensures After(ops).delivered == [Packet(1, b), Packet(0, a)]
  {
    ops := TwoInFlight(a, b);
    AfterSnoc(ops, Settle(1, true));
    AfterSnoc(ops + [Settle(1, true)], Settle(0, true));
    var l := After(ops);
    assert FlightOf(l.inFlight, 1) == 1;
    var m := Step(l, Settle(1, true));
    assert m.inFlight == [Flight(0, [Packet(0, a)])];
    assert ops + [Settle(1, true)] + [Settle(0, true)] == ops + [Settle(1, true), Settle(0, true)];
    ops := ops + [Settle(1, true), Settle(0, true)];
  }

  lemma TwoInFlight(a: Bytes, b: Bytes) returns (ops: seq<Op>)
    ensures ops == [CacheData(a), Lookup(0), Take(0), CacheData(b), Lookup(1), Take(1)]
    ensures var l := After(ops);
      && l.inFlight == [Flight(0, [Packet(0, a)]), Flight(1, [Packet(1, b)])]
      && l.cached == [Packet(0, a), Packet(1, b)] && l.delivered == [] && l.lost == []
  {
    ops := [];
    AfterSnoc(ops, CacheData(a));
    ops := ops + [CacheData(a)];
    assert After(ops).pending == [Packet(0, a)];
    AfterSnoc(ops, Lookup(0));
    ops := ops + [Lookup(0)];
    assert 0 in After(ops).waiting && After(ops).inFlight == [];
    AfterSnoc(ops, Take(0));
    ops := ops + [Take(0)];
    assert After(ops).inFlight == [Flight(0, [Packet(0, a)])] && After(ops).used == {0} && After(ops).pending == [];
    AfterSnoc(ops, CacheData(b));
    ops := ops + [CacheData(b)];
    assert After(ops).pending == [Packet(1, b)];
    AfterSnoc(ops, Lookup(1));
    ops := ops + [Lookup(1)];
    assert 1 in After(ops).waiting;
    AfterSnoc(ops, Take(1));
    ops := ops + [Take(1)];
  }

  /** A sweep loses what is pending, without any recovery. */
  lemma SweepExample(d: Bytes)
    ensures After([CacheData(d)] + [Sweep]).lost == [Packet(0, d)]
  {
    AfterSnoc([CacheData(d)], Sweep);
    AfterSnoc([], CacheData(d));
    assert [] + [CacheData(d)] == [CacheData(d)];
  }

  // The objects

  function Datas(ps: seq<Packet>): (s: seq<Bytes>)
    ensures |s| == |ps|
  {
    seq(|ps|, i requires 0 <= i < |ps| => ps[i].data)
  }

  /** Recovery ids are used once. */
  ghost predicate WellKept(l: Ledger) {
    && l.waiting <= l.used
    && (forall i :: 0 <= i < |l.inFlight| ==> l.inFlight[i].recovery in l.used && l.inFlight[i].recovery !in l.waiting)
  }

  /** Recovery r has taken `data` and not yet settled. */
  ghost predicate Holds(l: Ledger, r: RecoveryId, data: seq<Bytes>) {
    var k := FlightOf(l.inFlight, r);
    k < |l.inFlight| && Datas(l.inFlight[k].packets) == data
  }

  lemma SettleKeeps(l: Ledger, r: RecoveryId, ok: bool)
    ensures var m := Step(l, Settle(r, ok));
      && m.present == l.present && m.waiting == l.waiting && m.pending == l.pending
      && (WellKept(l) ==> WellKept(m))
  {}

  class SessionInfo {
    const createdAt: Time
    var pendingData: seq<Bytes>
    ghost var ledger: Ledger

    /** Unless nobody can reach the data any more, it is what the books say. */
    ghost predicate Valid()
      reads this
    {
      WellKept(ledger) && (ledger.present || ledger.waiting != {} ==> Datas(ledger.pending) == pendingData)
    }

    constructor (now: Time)
      ensures pendingData == [] && ledger == EMPTY && createdAt == now && Valid()
    {
      createdAt, pendingData, ledger := now, [], EMPTY;
    }

    method AddPendingData(data: Bytes)
      requires Valid() && ledger.present
      modifies this
      ensures Valid() && pendingData == old(pendingData) + [data]
      ensures ledger == Step(old(ledger), CacheData(data))
    {
      pendingData := pendingData + [data];
      ledger := Step(ledger, CacheData(data));
    }

    /** By a recovery that looked the session up, even if it was swept since. */
    method TakePendingData(ghost r: RecoveryId) returns (data: seq<Bytes>)
      requires Valid() && r in ledger.waiting
      modifies this
      ensures Valid() && data == old(pendingData) && pendingData == []
      ensures ledger == Step(old(ledger), Take(r)) && Holds(ledger, r, data)
    {
      data := pendingData;
      pendingData := [];
      LastFlight(ledger.inFlight, Flight(r, ledger.pending));
      ledger := Step(ledger, Take(r));
    }
  }

  lemma {:induction false} LastFlight(fs: seq<Flight>, f: Flight)
    requires forall i :: 0 <= i < |fs| ==> fs[i].recovery != f.recovery
    ensures FlightOf(fs + [f], f.recovery) == |fs|
  {
    if fs != [] {
      LastFlight(fs[1..], f);
      assert (fs + [f])[1..] == fs[1..] + [f];
    }
  }

  /** Some attempt up to the n-th works. */
  ghost predicate Reachable(works: nat -> bool, n: nat) {
    exists i :: 1 <= i <= n && works(i)
  }

  class ResilientConnectionManager {
    const config: ReconnectConfig
    var sessions: map<SessionId, SessionInfo>
    var errorCount: nat

    ghost predicate Valid()
      reads this, sessions.Values
    {
      && (forall id :: id in sessions ==> sessions[id].Valid() && sessions[id].ledger.present)
      && (forall id, id2 :: id in sessions && id2 in sessions && id != id2 ==> sessions[id] != sessions[id2])
    }

    constructor (config: ReconnectConfig)
      ensures Valid() && sessions == map[] && errorCount == 0 && this.config == config
    {
      this.config := config;
      sessions, errorCount := map[], 0;
    }

    /** `works(i)` tells whether the i-th attempt connects in time. */
    method ConnectWithRetry(works: nat -> bool) returns (connected: bool, attempts: nat, sleeps: seq<nat>)
      modifies this`errorCount
      ensures connected <==> Reachable(works, config.maxRetries)
      ensures attempts <= config.maxRetries && forall i :: 1 <= i < attempts ==> !works(i)
      ensures if connected then attempts > 0 && works(attempts) else attempts == config.maxRetries
      ensures sleeps == Sleeps(DelaysOf(config), Max(attempts - 1, 0))
      ensures errorCount == if connected then 0 else old(errorCount) + config.maxRetries
    {
      var delay := config.initialDelay;
      ghost var delays := DelaysOf(config);
      sleeps := [];
      for attempt := 1 to config.maxRetries + 1
        invariant delay == delays(|sleeps|) && sleeps == Sleeps(delays, |sleeps|)
        invariant |sleeps| == if attempt <= config.maxRetries then attempt - 1 else Max(attempt - 2, 0)
        invariant forall i :: 1 <= i < attempt ==> !works(i)
        invariant errorCount == old(errorCount) + attempt - 1
      {
        if works(attempt) {
          errorCount := 0;
          return true, attempt, sleeps;
        }
        errorCount := errorCount + 1;
        if attempt < config.maxRetries {
          sleeps := sleeps + [delay];
          delay := Following(delay, attempt);
        }
      }
      return false, config.maxRetries, sleeps;
    }

    method Following(delay: nat, k: nat) returns (next: nat)
      requires k > 0 && delay == Delay(config, k - 1)
      ensures next == Delay(config, k)
    {
      next := NextDelay(config, delay);
    }

    /** The session is registered before the first attempt, and stays so. */
    method CreateResilientConnection(id: SessionId, now: Time, works: nat -> bool) returns (connected: bool)
      requires Valid() && id !in sessions
      modifies this
      ensures Valid() && sessions.Keys == old(sessions).Keys + {id}
      ensures fresh(sessions[id]) && sessions[id].pendingData == [] && sessions[id].createdAt == now
      ensures forall other :: other in old(sessions) ==> sessions[other] == old(sessions)[other]
      ensures connected <==> Reachable(works, config.maxRetries)
    {
      var session := new SessionInfo(now);
      sessions := sessions[id := session];
      var attempts, sleeps;
      connected, attempts, sleeps := ConnectWithRetry(works);
    }

    /** The first step of a recovery: looking its session up. */
    method BeginRecovery(id: SessionId, ghost r: RecoveryId) returns (found: Option<SessionInfo>)
      requires Valid() && (id in sessions ==> r !in sessions[id].ledger.used)
      modifies sessions.Values
      ensures Valid()
      ensures found == if id in sessions then Some(sessions[id]) else None
      ensures id in sessions ==>
        && sessions[id].ledger == Step(old(sessions[id].ledger), Lookup(r))
        && sessions[id].pendingData == old(sessions[id].pendingData)
        && r in sessions[id].ledger.waiting
      ensures forall other :: other in sessions && other != id ==> unchanged(sessions[other])
    {
      if id !in sessions {
        return None;
      }
      var session := sessions[id];
      session.ledger := Step(session.ledger, Lookup(r));
      return Some(session);
    }

    /** The last step, after the data has been taken: other recoveries, new data
        and sweeps may have come in between. */
    method FinishRecovery(session: SessionInfo, ghost r: RecoveryId, data: seq<Bytes>, works: nat -> bool)
      returns (recovered: Option<seq<Bytes>>)
      requires Valid() && session.Valid() && Holds(session.ledger, r, data)
      modifies this`errorCount, session`ledger
      ensures Valid() && session.Valid()
      ensures recovered == if Reachable(works, config.maxRetries) then Some(data) else None
      ensures session.ledger == Step(old(session.ledger), Settle(r, recovered.Some?))
    {
      var connected, attempts, sleeps := ConnectWithRetry(works);
      SettleKeeps(session.ledger, r, connected);
      session.ledger := Step(session.ledger, Settle(r, connected));
      return if connected then Some(data) else None;
    }

    /** A recovery that nothing else comes between. */
    method RecoverConnection(id: SessionId, ghost r: RecoveryId, works: nat -> bool) returns (recovered: Option<seq<Bytes>>)
      requires Valid() && (id in sessions ==> r !in sessions[id].ledger.used)
      modifies this`errorCount, sessions.Values
      ensures Valid() && sessions == old(sessions)
      ensures recovered.Some? <==> id in sessions && Reachable(works, config.maxRetries)
      ensures recovered.Some? ==> recovered.value == old(sessions[id].pendingData)
      ensures id in sessions ==>
        && sessions[id].pendingData == []
        && sessions[id].ledger == Step(Step(Step(old(sessions[id].ledger), Lookup(r)), Take(r)), Settle(r, recovered.Some?))
      ensures id !in sessions ==> errorCount == old(errorCount)
      ensures forall other :: other in sessions && other != id ==> unchanged(sessions[other])
    {
      var found := BeginRecovery(id, r);
      if found.None? {
        return None;
      }
      var session := found.value;
      var pending := session.TakePendingData(r);
      recovered := FinishRecovery(session, r, pending, works);
    }

    method CacheForLater(id: SessionId, data: Bytes) returns (found: bool)
      requires Valid()
      modifies sessions.Values
      ensures Valid()
      ensures found <==> id in sessions
      ensures found ==>
        && sessions[id].pendingData == old(sessions[id].pendingData) + [data]
        && sessions[id].ledger == Step(old(sessions[id].ledger), CacheData(data))
      ensures forall other :: other in sessions && other != id ==> unchanged(sessions[other])
    {
      found := id in sessions;
      if found {
        sessions[id].AddPendingData(data);
      }
    }

    /** One tick of the health check: sessions created more than five minutes ago
        go, with what is pending in them. */
    method CleanupExpiredSessions(now: Time)
      requires Valid()
      modifies this`sessions, sessions.Values
      ensures Valid()
      ensures sessions == map id | id in old(sessions) && now - old(sessions)[id].createdAt <= 300_000_000_000 :: old(sessions)[id]
      ensures forall id :: id in sessions ==> unchanged(sessions[id])
      ensures forall id :: id in old(sessions) && id !in sessions ==>
        && old(sessions)[id].Valid()
        && old(sessions)[id].ledger == Step(old(sessions[id].ledger), Sweep)
    {
      ghost var swept := set id | id in sessions && now - sessions[id].createdAt > SESSION_TIMEOUT :: sessions[id];
      sessions := map id | id in sessions && now - sessions[id].createdAt <= SESSION_TIMEOUT :: sessions[id];
      SweepAll(swept);
    }

    static ghost method SweepAll(swept: set<SessionInfo>)
      requires forall s :: s in swept ==> s.Valid()
      modifies swept
      ensures forall s :: s in swept ==> s.Valid() && s.ledger == Step(old(s.ledger), Sweep)
    {
      forall s: SessionInfo | s in swept {
        s.ledger := Step(s.ledger, Sweep);
      }
    }
  }
}

/** The reconnection loop of the reverse-proxy client, in whole seconds. */
module ClientRetry {
  import opened Basics
  import opened Digits
  import opened Backoff

  const MAX_RETRIES: nat := 10
  const MAX_BACKOFF: nat := 60

  datatype Outcome = Completed | ShutDown | GaveUp

  /** The world of one run: whether shutdown is seen before the i-th attempt,
      whether that attempt completes, whether shutdown comes while backing off
      after it. */
  datatype Script = Script(shutdown: nat -> bool, completes: nat -> bool, interrupted: nat -> bool)

  /** The i-th attempt is made, fails, and is followed by a full back-off. */
  predicate Continues(s: Script, i: nat) {
    !s.shutdown(i) && !s.completes(i) && !s.interrupted(i)
  }

  /** The k-th back-off. */
  function BackoffAt(k: nat): nat {
    Min(Pow(2, k), MAX_BACKOFF)
  }

  function Backoffs(): nat -> nat {
    k => BackoffAt(k)
  }

  lemma BackoffDoubles(k: nat)
    requires k > 0
    ensures BackoffAt(k) == Min(BackoffAt(k - 1) * 2, MAX_BACKOFF)
  {}

  method Start(s: Script) returns (outcome: Outcome, attempts: nat, sleeps: seq<nat>)
    ensures attempts <= 10
    ensures forall i :: 0 <= i < attempts ==> !s.shutdown(i)
    ensures forall i :: 0 <= i < Min(attempts, 10) - 1 ==> Continues(s, i)
    ensures outcome == Completed <==> attempts > 0 && s.completes(attempts - 1)
    ensures outcome == GaveUp <==> attempts == 10 && !s.completes(9) && !s.shutdown(10)
    ensures outcome == ShutDown ==>
      s.shutdown(attempts) || (0 < attempts < 10 && s.interrupted(attempts - 1))
    ensures |sleeps| == if outcome == Completed then attempts - 1 else Min(attempts, 9)
    ensures sleeps == Sleeps(Backoffs(), |sleeps|)
  {
    var retryCount, backoffSeconds := 0, 1;
    ghost var waits := Backoffs();
    sleeps := [];
    while true
      invariant 0 <= retryCount <= MAX_RETRIES
      invariant forall i :: 0 <= i < retryCount ==> !s.shutdown(i) && !s.completes(i)
      invariant forall i :: 0 <= i < Min(retryCount, MAX_RETRIES - 1) ==> !s.interrupted(i)
      invariant |sleeps| == Min(retryCount, MAX_RETRIES - 1)
      invariant backoffSeconds == waits(|sleeps|) && sleeps == Sleeps(waits, |sleeps|)
      decreases MAX_RETRIES - retryCount
    {
      if s.shutdown(retryCount) {
        return ShutDown, retryCount, sleeps;
      }
      if retryCount >= MAX_RETRIES {
        return GaveUp, retryCount, sleeps;
      }
      if s.completes(retryCount) {
        return Completed, retryCount + 1, sleeps;
      }
      retryCount := retryCount + 1;
      if retryCount < MAX_RETRIES {
        sleeps := sleeps + [backoffSeconds];
        if s.interrupted(retryCount - 1) {
          return ShutDown, retryCount, sleeps;
        }
        BackoffDoubles(retryCount);
        backoffSeconds := Min(backoffSeconds * 2, MAX_BACKOFF);
      }
    }
  }

  /** The client's sleeps are the doubling delays from one second up to sixty. */
  lemma ClientSleepsAreDelays(c: ReconnectConfig, k: nat)
    requires c.initialDelay == 1_000_000_000 && c.maxDelay == 60_000_000_000 && c.factor == 2.0
    ensures Delay(c, k) == Backoffs()(k) * 1_000_000_000
    ensures Backoffs()(k) == Min(Pow(2, k), 60)
  {
    DoublingExactly(c, k + 1);
    InSeconds(Pow(2, k));
  }

  lemma InSeconds(p: nat)
    ensures Min(SECOND * p, MAX_BACKOFF * SECOND) == Min(p, MAX_BACKOFF) * SECOND
  {}
}
