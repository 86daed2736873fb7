/** Admission control: the allow list, the per-IP connection cap and the
    sliding-window rate limit, updated under one lock. */
module Admission {
  import opened Basics

  /** An address in its textual form, which is what the allow list compares. */
  type Ip = string

  /** Nanoseconds of a monotonic clock. */
  type Time = nat

  datatype Policy = Policy(allowIps: Option<seq<string>>, maxConnsPerIp: Option<nat>, cpsLimit: Option<real>)

  datatype IpStats = IpStats(active: nat, recent: seq<Time>)

  datatype Counters = Counters(total: nat, active: nat, successful: nat, failed: nat)

  datatype Verdict = Admitted | NotAllowed | TooManyConnections | RateExceeded

  // What each locked region computes

  predicate Matches(ip: Ip, pattern: string) {
    ip == pattern || pattern == "0.0.0.0/0" || pattern == "::/0"
  }

  predicate Allowed(policy: Policy, ip: Ip) {
    policy.allowIps.None? || exists p :: p in policy.allowIps.value && Matches(ip, p)
  }

  /** `limit as usize`: truncation, with negative limits giving zero. */
  function WindowCap(limit: real): nat {
    if limit < 0.0 then 0 else limit.Floor
  }

  predicate Recent(t: Time, now: Time) {
    now - t < SECOND
  }

  function Pruned(times: seq<Time>, now: Time): seq<Time> {
    if times == [] then []
    else (if Recent(times[0], now) then [times[0]] else []) + Pruned(times[1..], now)
  }

  lemma PrunedNext(times: seq<Time>, i: nat, now: Time)
    requires i < |times|
    ensures Pruned(times[i..], now)
         == (if Recent(times[i], now) then [times[i]] else []) + Pruned(times[i + 1..], now)
  {
    assert times[i..][1..] == times[i + 1..];
  }

  function StatsOf(table: map<Ip, IpStats>, ip: Ip): IpStats {
    if ip in table then table[ip] else IpStats(0, [])
  }

  function Check(policy: Policy, table: map<Ip, IpStats>, ip: Ip, now: Time): (Verdict, map<Ip, IpStats>) {
    var s := StatsOf(table, ip);
    if !Allowed(policy, ip) then (NotAllowed, table)
    else if policy.maxConnsPerIp.None? && policy.cpsLimit.None? then (Admitted, table)
    else if policy.maxConnsPerIp.Some? && s.active >= policy.maxConnsPerIp.value then
      (TooManyConnections, table[ip := s])
    else if policy.cpsLimit.None? then
      (Admitted, table[ip := s.(active := s.active + 1)])
    else
      var kept := Pruned(s.recent, now);
      if |kept| >= WindowCap(policy.cpsLimit.value) then (RateExceeded, table[ip := s.(recent := kept)])
      else (Admitted, table[ip := IpStats(s.active + 1, kept + [now])])
  }

  function Release(policy: Policy, table: map<Ip, IpStats>, ip: Ip): map<Ip, IpStats> {
    if policy.maxConnsPerIp.None? || ip !in table then table
    else table[ip := table[ip].(active := if table[ip].active == 0 then 0 else table[ip].active - 1)]
  }

  class StealthConnectionHandler {
    const policy: Policy
    var ipStats: map<Ip, IpStats>
    var counters: Counters

    constructor (policy: Policy)
      ensures this.policy == policy && ipStats == map[] && counters == Counters(0, 0, 0, 0)
    {
      this.policy := policy;
      ipStats := map[];
      counters := Counters(0, 0, 0, 0);
    }

    /** One pass of the security check. */
    method CheckSecurity(ip: Ip, now: Time) returns (v: Verdict)
      modifies this`ipStats
      ensures (v, ipStats) == Check(policy, old(ipStats), ip, now)
    {
      if policy.allowIps.Some? {
        var found := false;
        var i := 0;
        while i < |policy.allowIps.value| && !found
          invariant 0 <= i <= |policy.allowIps.value|
          invariant found <==> exists j :: 0 <= j < i && Matches(ip, policy.allowIps.value[j])
        {
          found := Matches(ip, policy.allowIps.value[i]);
          i := i + 1;
        }
        if !found {
          return NotAllowed;
        }
      }
      if policy.maxConnsPerIp.None? && policy.cpsLimit.None? {
        return Admitted;
      }
      var s := StatsOf(ipStats, ip);
      ipStats := ipStats[ip := s];
      if policy.maxConnsPerIp.Some? && s.active >= policy.maxConnsPerIp.value {
        return TooManyConnections;
      }
      if policy.cpsLimit.Some? {
        var kept := Retain(s.recent, now);
        s := s.(recent := kept);
        ipStats := ipStats[ip := s];
        assert ipStats == old(ipStats)[ip := s];
        if |kept| >= WindowCap(policy.cpsLimit.value) {
          return RateExceeded;
        }
        s := s.(recent := kept + [now]);
      }
      ipStats := ipStats[ip := s.(active := s.active + 1)];
      assert ipStats == old(ipStats)[ip := s.(active := s.active + 1)];
      return Admitted;
    }

    static method Retain(times: seq<Time>, now: Time) returns (kept: seq<Time>)
      ensures kept == Pruned(times, now)
    {
      kept := [];
      var i := 0;
      while i < |times|
        invariant 0 <= i <= |times|
        invariant kept + Pruned(times[i..], now) == Pruned(times, now)
      {
        PrunedNext(times, i, now);
        if Recent(times[i], now) {
          kept := kept + [times[i]];
        }
        i := i + 1;
      }
    }

    method RegisterDisconnection(ip: Ip)
      modifies this`ipStats
      ensures ipStats == Release(policy, old(ipStats), ip)
    {
      if policy.maxConnsPerIp.Some? && ip in ipStats {
        var s := ipStats[ip];
        ipStats := ipStats[ip := s.(active := if s.active == 0 then 0 else s.active - 1)];
      }
    }

    /** Up to the hand-over to the forwarding engine. */
    method BeginConnection(peer: Option<Ip>, now: Time) returns (v: Verdict)
      modifies this
      ensures (v, ipStats) == Arrive(policy, old(ipStats), peer, now)
      ensures counters == if v == Admitted then CountArrival(old(counters)) else old(counters)
    {
      v := Admitted;
      if peer.Some? {
        v := CheckSecurity(peer.value, now);
        if v != Admitted {
          return;
        }
      }
      counters := counters.(total := counters.total + 1);
      counters := counters.(active := counters.active + 1);
    }

    /** After the forwarding engine returned, with the peer address as read then. */
    method EndConnection(peer: Option<Ip>, ok: bool)
      requires counters.active > 0
      modifies this
      ensures ipStats == Leave(policy, old(ipStats), peer)
      ensures counters == CountEnd(old(counters), ok)
    {
      if ok {
        counters := counters.(successful := counters.successful + 1);
      } else {
        if peer.Some? {
          RegisterDisconnection(peer.value);
        }
        counters := counters.(failed := counters.failed + 1);
        return;
      }
      if peer.Some? {
        RegisterDisconnection(peer.value);
      }
      counters := counters.(active := counters.active - 1);
    }
  }

  function Arrive(policy: Policy, table: map<Ip, IpStats>, peer: Option<Ip>, now: Time): (Verdict, map<Ip, IpStats>) {
    match peer
    case Some(ip) => Check(policy, table, ip, now)
    case None => (Admitted, table)
  }

  function Leave(policy: Policy, table: map<Ip, IpStats>, peer: Option<Ip>): map<Ip, IpStats> {
    match peer
    case Some(ip) => Release(policy, table, ip)
    case None => table
  }

  function CountArrival(c: Counters): Counters {
    c.(total := c.total + 1, active := c.active + 1)
  }

  /** Failures leave `active` as it was. */
  function CountEnd(c: Counters, ok: bool): Counters
    requires c.active > 0
  {
    if ok then c.(successful := c.successful + 1, active := c.active - 1) else c.(failed := c.failed + 1)
  }
}

/** Whole runs of the admission control: every interleaving of connections
    and datagrams, with the true history kept beside the tables. */
module AdmissionRuns {
  import opened Basics
  import opened Admission

  type ConnId = nat

  /** `conns` are the connections being forwarded, with the address each was
      admitted under; `stranded` are admissions no step will ever release. */
  datatype State = State(
    table: map<Ip, IpStats>,
    counters: Counters,
    clock: Time,
    admitted: seq<(Ip, Time)>,
    conns: map<ConnId, Option<Ip>>,
    stranded: multiset<Ip>,
    setupFailures: nat)

  datatype Event =
    | Connect(id: ConnId, peer: Option<Ip>, now: Time)
    | SetupFailed(id: ConnId)
    | Finished(id: ConnId, ok: bool, peerStillKnown: bool)
    | Datagram(ip: Ip, now: Time)

  const INITIAL := State(map[], Counters(0, 0, 0, 0), 0, [], map[], multiset{}, 0)

  /** The clock is monotonic, ids are fresh, only running connections end. */
  predicate Enabled(s: State, e: Event) {
    match e
    case Connect(id, _, now) => id !in s.conns && s.clock <= now
    case SetupFailed(id) => id in s.conns
    case Finished(id, _, _) => id in s.conns && s.counters.active > 0
    case Datagram(_, now) => s.clock <= now
  }

  function Log(s: State, peer: Option<Ip>, now: Time): seq<(Ip, Time)> {
    if peer.Some? then s.admitted + [(peer.value, now)] else s.admitted
  }

  function Strand(stranded: multiset<Ip>, peer: Option<Ip>): multiset<Ip> {
    if peer.Some? then stranded + multiset{peer.value} else stranded
  }

  function Step(policy: Policy, s: State, e: Event): State
    requires Enabled(s, e)
  {
    match e
    case Connect(id, peer, now) =>
      var (v, table) := Arrive(policy, s.table, peer, now);
      if v == Admitted then
        s.(table := table, clock := now, counters := CountArrival(s.counters),
           conns := s.conns[id := peer], admitted := Log(s, peer, now))
      else s.(table := table, clock := now)
    case SetupFailed(id) =>
      s.(conns := s.conns - {id}, stranded := Strand(s.stranded, s.conns[id]), setupFailures := s.setupFailures + 1)
    case Finished(id, ok, peerStillKnown) =>
      var peer := s.conns[id];
      s.(counters := CountEnd(s.counters, ok),
         table := if peerStillKnown then Leave(policy, s.table, peer) else s.table,
         conns := s.conns - {id},
         stranded := if peerStillKnown then s.stranded else Strand(s.stranded, peer))
    case Datagram(ip, now) =>
      var (v, table) := Check(policy, s.table, ip, now);
      if v == Admitted then
        s.(table := table, clock := now, admitted := Log(s, Some(ip), now), stranded := Strand(s.stranded, Some(ip)))
      else s.(table := table, clock := now)
  }

  ghost predicate IsRun(policy: Policy, states: seq<State>, events: seq<Event>) {
    && |states| == |events| + 1
    && states[0] == INITIAL
    && forall i :: 0 <= i < |events| ==> Enabled(states[i], events[i]) && states[i + 1] == Step(policy, states[i], events[i])
  }

  // Connection cap

  ghost function Live(conns: map<ConnId, Option<Ip>>, ip: Ip): set<ConnId> {
    set id | id in conns && conns[id] == Some(ip)
  }

  ghost predicate CapAt(policy: Policy, s: State, ip: Ip)
    requires policy.maxConnsPerIp.Some?
  {
    StatsOf(s.table, ip).active == |Live(s.conns, ip)| + s.stranded[ip] <= policy.maxConnsPerIp.value
  }

  ghost predicate CapAccounting(policy: Policy, s: State) {
    policy.maxConnsPerIp.Some? ==>
      forall ip: Ip :: CapAt(policy, s, ip)
  }

  ghost predicate CounterAccounting(s: State) {
    && s.counters.active == |s.conns| + s.setupFailures + s.counters.failed
    && s.counters.total == |s.conns| + s.setupFailures + s.counters.failed + s.counters.successful
  }

  lemma LiveAfterArrival(conns: map<ConnId, Option<Ip>>, id: ConnId, peer: Option<Ip>, ip: Ip)
    requires id !in conns
    ensures |Live(conns[id := peer], ip)| == |Live(conns, ip)| + (if peer == Some(ip) then 1 else 0)
  {
    var after := Live(conns[id := peer], ip);
    assert after == if peer == Some(ip) then Live(conns, ip) + {id} else Live(conns, ip);
  }

  lemma LiveAfterEnd(conns: map<ConnId, Option<Ip>>, id: ConnId, ip: Ip)
    requires id in conns
    ensures |Live(conns, ip)| == |Live(conns - {id}, ip)| + (if conns[id] == Some(ip) then 1 else 0)
  {
    assert (conns - {id})[id := conns[id]] == conns;
    LiveAfterArrival(conns - {id}, id, conns[id], ip);
  }

  /** What a security check does to the counters, when a cap is set. */
  lemma CheckCounts(policy: Policy, table: map<Ip, IpStats>, ip: Ip, now: Time, other: Ip)
    requires policy.maxConnsPerIp.Some?
    ensures var (v, after) := Check(policy, table, ip, now);
      && StatsOf(after, other).active == StatsOf(table, other).active + (if v == Admitted && other == ip then 1 else 0)
      && (v == Admitted ==> StatsOf(table, ip).active < policy.maxConnsPerIp.value)
  {}

  lemma CapKeptOnArrival(policy: Policy, s: State, e: Event, ip: Ip)
    requires policy.maxConnsPerIp.Some? && Enabled(s, e) && CapAt(policy, s, ip)
    requires e.Connect? || e.Datagram?
    ensures CapAt(policy, Step(policy, s, e), ip)
  {
    match e
    case Connect(id, peer, now) =>
      LiveAfterArrival(s.conns, id, peer, ip);
      if peer.Some? { CheckCounts(policy, s.table, peer.value, now, ip); }
    case Datagram(from, now) =>
      CheckCounts(policy, s.table, from, now, ip);
    case _ =>
  }

  lemma CapKeptOnEnd(policy: Policy, s: State, e: Event, ip: Ip)
    requires policy.maxConnsPerIp.Some? && Enabled(s, e) && CapAt(policy, s, ip)
    requires e.SetupFailed? || e.Finished?
    ensures CapAt(policy, Step(policy, s, e), ip)
  {
    LiveAfterEnd(s.conns, e.id, ip);
  }

  lemma CapKept(policy: Policy, s: State, e: Event)
    requires Enabled(s, e) && CapAccounting(policy, s)
    ensures CapAccounting(policy, Step(policy, s, e))
  {
    if policy.maxConnsPerIp.Some? {
      var t := Step(policy, s, e);
      forall ip: Ip ensures CapAt(policy, t, ip) {
        assert CapAt(policy, s, ip);
        if e.Connect? || e.Datagram? {
          CapKeptOnArrival(policy, s, e, ip);
        } else {
          CapKeptOnEnd(policy, s, e, ip);
        }
      }
    }
  }

  lemma SizeAfter<K, V>(m: map<K, V>, k: K, v: V)
    ensures k !in m ==> |m[k := v]| == |m| + 1
    ensures k in m ==> |m - {k}| == |m| - 1
  {
    if k !in m {
      assert m[k := v].Keys == m.Keys + {k};
    } else {
      assert m.Keys == (m - {k}).Keys + {k};
    }
  }

  lemma CountersKeptOnConnect(policy: Policy, s: State, id: ConnId, peer: Option<Ip>, now: Time)
    requires Enabled(s, Connect(id, peer, now)) && CounterAccounting(s)
    ensures CounterAccounting(Step(policy, s, Connect(id, peer, now)))
  {
    SizeAfter(s.conns, id, peer);
    var (v, table) := Arrive(policy, s.table, peer, now);
    if v == Admitted {
      assert Step(policy, s, Connect(id, peer, now)).conns == s.conns[id := peer];
    }
  }

  lemma CountersKept(policy: Policy, s: State, e: Event)
    requires Enabled(s, e) && CounterAccounting(s)
    ensures CounterAccounting(Step(policy, s, e))
  {
    if e.Connect? {
      CountersKeptOnConnect(policy, s, e.id, e.peer, e.now);
    } else if e.SetupFailed? || e.Finished? {
      SizeAfter(s.conns, e.id, None);
    }
  }

  /** In every state of every run the per-IP counter is the number of live
      connections plus the stranded admissions, and never above the cap; the
      global gauge also counts failed set-ups and failed connections. */
  lemma {:induction false} Accounting(policy: Policy, states: seq<State>, events: seq<Event>, i: nat)
    requires IsRun(policy, states, events) && i < |states|
    ensures CapAccounting(policy, states[i]) && CounterAccounting(states[i])
  {
    if i == 0 {
      assert forall ip: Ip :: Live(INITIAL.conns, ip) == {};
    } else {
      Accounting(policy, states, events, i - 1);
      CapKept(policy, states[i - 1], events[i - 1]);
      CountersKept(policy, states[i - 1], events[i - 1]);
    }
  }

  /** Hence a running connection is always counted when it ends: the saturating
      decrement never saturates and the gauge never underflows. */
  lemma DecrementNeverSaturates(policy: Policy, states: seq<State>, events: seq<Event>, i: nat, id: ConnId)
    requires IsRun(policy, states, events) && i < |states| && id in states[i].conns
    ensures states[i].counters.active > 0
    ensures policy.maxConnsPerIp.Some? && states[i].conns[id].Some? ==>
      var ip := states[i].conns[id].value; ip in states[i].table && states[i].table[ip].active > 0
  {
    Accounting(policy, states, events, i);
    var s := states[i];
    assert id in s.conns.Keys;
    if policy.maxConnsPerIp.Some? && s.conns[id].Some? {
      assert CapAt(policy, s, s.conns[id].value);
      assert id in Live(s.conns, s.conns[id].value);
    }
  }

  // Rate limit

  /** The true admission times of one address. */
  ghost function Times(log: seq<(Ip, Time)>, ip: Ip): seq<Time> {
    if log == [] then []
    else
      var e := log[|log| - 1];
      Times(log[..|log| - 1], ip) + (if e.0 == ip then [e.1] else [])
  }

  lemma TimesSnoc(log: seq<(Ip, Time)>, e: (Ip, Time), ip: Ip)
    ensures Times(log + [e], ip) == Times(log, ip) + (if e.0 == ip then [e.1] else [])
  {
    assert (log + [e])[..|log|] == log;
  }

  ghost predicate Sorted(ts: seq<Time>) {
    forall i, j :: 0 <= i <= j < |ts| ==> ts[i] <= ts[j]
  }

  /** `rs` is `ts` without some entries at least a second older than `clock`. */
  ghost predicate ExpiredPrefixDropped(ts: seq<Time>, rs: seq<Time>, clock: Time) {
    && |rs| <= |ts| && rs == ts[|ts| - |rs|..]
    && forall i :: 0 <= i < |ts| - |rs| ==> ts[i] + SECOND <= clock
  }

  /** Any cap + 1 consecutive admissions span a second. */
  ghost predicate Spaced(ts: seq<Time>, cap: nat) {
    forall i :: 0 <= i < |ts| - cap ==> ts[i] + SECOND <= ts[i + cap]
  }

  /** `ts` are all admissions of an address up to `clock`, `rs` what the table
      still lists of them. */
  ghost predicate History(ts: seq<Time>, rs: seq<Time>, cap: nat, clock: Time) {
    && Sorted(ts) && (forall i :: 0 <= i < |ts| ==> ts[i] <= clock)
    && ExpiredPrefixDropped(ts, rs, clock)
    && Spaced(ts, cap)
  }

  ghost predicate RateAt(policy: Policy, s: State, ip: Ip)
    requires policy.cpsLimit.Some?
  {
    History(Times(s.admitted, ip), StatsOf(s.table, ip).recent, WindowCap(policy.cpsLimit.value), s.clock)
  }

  lemma {:induction false} AllRecent(rs: seq<Time>, now: Time)
    requires forall i :: 0 <= i < |rs| ==> Recent(rs[i], now)
    ensures Pruned(rs, now) == rs
  {
    if rs != [] {
      AllRecent(rs[1..], now);
    }
  }

  /** Pruning a sorted list drops exactly an expired prefix. */
  lemma {:induction false} PrunedSuffix(rs: seq<Time>, now: Time)
    requires Sorted(rs)
    ensures var k := |Pruned(rs, now)|;
      && k <= |rs| && Pruned(rs, now) == rs[|rs| - k..]
      && forall i :: 0 <= i < |rs| ==> (Recent(rs[i], now) <==> i >= |rs| - k)
  {
    if rs != [] {
      if Recent(rs[0], now) {
        AllRecent(rs, now);
      } else {
        PrunedSuffix(rs[1..], now);
        assert forall i :: 1 <= i < |rs| ==> rs[i] == rs[1..][i - 1];
      }
    }
  }

  /** The pruned table entry is the true history of the last second. */
  lemma PrunedIsTrueHistory(ts: seq<Time>, rs: seq<Time>, clock: Time, now: Time)
    requires Sorted(ts) && ExpiredPrefixDropped(ts, rs, clock) && clock <= now
    ensures ExpiredPrefixDropped(ts, Pruned(rs, now), now)
    ensures forall i :: 0 <= i < |ts| ==> (Recent(ts[i], now) <==> i >= |ts| - |Pruned(rs, now)|)
  {
    var d := |ts| - |rs|;
    PrunedSuffix(rs, now);
    assert forall i :: d <= i < |ts| ==> ts[i] == rs[i - d];
  }

  lemma AdmissionKeepsHistory(ts: seq<Time>, kept: seq<Time>, now: Time, cap: nat)
    requires History(ts, kept, cap, now) && |kept| < cap
    ensures History(ts + [now], kept + [now], cap, now)
  {}

  /** What a security check does to the recent list of an address. */
  lemma CheckRecent(policy: Policy, table: map<Ip, IpStats>, from: Ip, now: Time, ip: Ip)
    requires policy.cpsLimit.Some?
    ensures var (v, after) := Check(policy, table, from, now);
      var rs, rs' := StatsOf(table, ip).recent, StatsOf(after, ip).recent;
      if v == Admitted && from == ip then
        rs' == Pruned(rs, now) + [now] && |Pruned(rs, now)| < WindowCap(policy.cpsLimit.value)
      else
        rs' == rs || rs' == Pruned(rs, now)
  {}

  lemma HistoryAfterCheck(policy: Policy, table: map<Ip, IpStats>, from: Ip, now: Time, ip: Ip, ts: seq<Time>, clock: Time)
    requires policy.cpsLimit.Some? && clock <= now
    requires History(ts, StatsOf(table, ip).recent, WindowCap(policy.cpsLimit.value), clock)
    ensures var (v, after) := Check(policy, table, from, now);
      History(ts + (if v == Admitted && from == ip then [now] else []),
              StatsOf(after, ip).recent, WindowCap(policy.cpsLimit.value), now)
  {
    var rs, cap := StatsOf(table, ip).recent, WindowCap(policy.cpsLimit.value);
    CheckRecent(policy, table, from, now, ip);
    PrunedIsTrueHistory(ts, rs, clock, now);
    assert History(ts, rs, cap, now) && History(ts, Pruned(rs, now), cap, now);
    var v := Check(policy, table, from, now).0;
    if v == Admitted && from == ip {
      AdmissionKeepsHistory(ts, Pruned(rs, now), now, cap);
    } else {
      assert ts + [] == ts;
    }
  }

  lemma RateKept(policy: Policy, s: State, e: Event, ip: Ip)
    requires policy.cpsLimit.Some? && Enabled(s, e) && RateAt(policy, s, ip)
    ensures RateAt(policy, Step(policy, s, e), ip)
  {
    var ts := Times(s.admitted, ip);
    assert ts + [] == ts;
    match e
    case Connect(_, Some(from), now) =>
      HistoryAfterCheck(policy, s.table, from, now, ip, ts, s.clock);
      TimesSnoc(s.admitted, (from, now), ip);
    case Connect(_, None, now) =>
    case SetupFailed(_) =>
    case Finished(id, _, known) =>
      assert StatsOf(Step(policy, s, e).table, ip).recent == StatsOf(s.table, ip).recent;
    case Datagram(from, now) =>
      HistoryAfterCheck(policy, s.table, from, now, ip, ts, s.clock);
      TimesSnoc(s.admitted, (from, now), ip);
  }

  lemma {:induction false} RateInvariant(policy: Policy, states: seq<State>, events: seq<Event>, i: nat, ip: Ip)
    requires policy.cpsLimit.Some? && IsRun(policy, states, events) && i < |states|
    ensures RateAt(policy, states[i], ip)
  {
    if i > 0 {
      RateInvariant(policy, states, events, i - 1, ip);
      RateKept(policy, states[i - 1], events[i - 1], ip);
    }
  }

  ghost function Within(ts: seq<Time>, from: int, to: int): set<int> {
    set i | 0 <= i < |ts| && from <= ts[i] < to
  }

  lemma SpacedWindow(ts: seq<Time>, cap: nat, from: int)
    requires Sorted(ts) && Spaced(ts, cap)
    ensures |Within(ts, from, from + SECOND)| <= cap
  {
    var a := FirstIndex(ts, from);
    if a + cap < |ts| {
      assert from <= ts[a] && ts[a] + SECOND <= ts[a + cap];
    }
    assert Within(ts, from, from + SECOND) <= Range(a, cap);
    SubsetSize(Within(ts, from, from + SECOND), Range(a, cap));
  }

  lemma FirstIndex(ts: seq<Time>, from: int) returns (a: nat)
    requires Sorted(ts)
    ensures a <= |ts|
    ensures forall i :: 0 <= i < a ==> ts[i] < from
    ensures forall i :: a <= i < |ts| ==> from <= ts[i]
  {
    a := 0;
    while a < |ts| && ts[a] < from
      invariant a <= |ts| && forall i :: 0 <= i < a ==> ts[i] < from
    {
      a := a + 1;
    }
  }

  /** In every run, any one-second window holds at most as many admissions of one
      address as the limit says. */
  lemma WindowNeverExceeded(policy: Policy, states: seq<State>, events: seq<Event>, i: nat, ip: Ip, from: int)
    requires policy.cpsLimit.Some? && IsRun(policy, states, events) && i < |states|
    ensures var n := |Within(Times(states[i].admitted, ip), from, from + 1_000_000_000)|;
      n == 0 || n as real <= policy.cpsLimit.value
  {
    RateInvariant(policy, states, events, i, ip);
    SpacedWindow(Times(states[i].admitted, ip), WindowCap(policy.cpsLimit.value), from);
  }

  /** The rate limiter refuses exactly when the last second is already full. */
  lemma RefusalIsJustified(policy: Policy, states: seq<State>, events: seq<Event>, i: nat, ip: Ip, now: Time)
    requires policy.cpsLimit.Some? && IsRun(policy, states, events) && i < |states| && states[i].clock <= now
    requires Allowed(policy, ip)
    requires policy.maxConnsPerIp.Some? ==> StatsOf(states[i].table, ip).active < policy.maxConnsPerIp.value
    ensures Check(policy, states[i].table, ip, now).0 == RateExceeded
       <==> |Within(Times(states[i].admitted, ip), now - SECOND + 1, now + 1)| >= WindowCap(policy.cpsLimit.value)
  {
    RateInvariant(policy, states, events, i, ip);
    LastSecond(Times(states[i].admitted, ip), StatsOf(states[i].table, ip).recent, states[i].clock, now);
    RateVerdict(policy, states[i].table, ip, now);
  }

  lemma RateVerdict(policy: Policy, table: map<Ip, IpStats>, ip: Ip, now: Time)
    requires policy.cpsLimit.Some? && Allowed(policy, ip)
    requires policy.maxConnsPerIp.Some? ==> StatsOf(table, ip).active < policy.maxConnsPerIp.value
    ensures Check(policy, table, ip, now).0 == RateExceeded
       <==> |Pruned(StatsOf(table, ip).recent, now)| >= WindowCap(policy.cpsLimit.value)
  {}

  lemma LastSecond(ts: seq<Time>, rs: seq<Time>, clock: Time, now: Time)
    requires Sorted(ts) && (forall i :: 0 <= i < |ts| ==> ts[i] <= clock) && clock <= now
    requires ExpiredPrefixDropped(ts, rs, clock)
    ensures |Within(ts, now - SECOND + 1, now + 1)| == |Pruned(rs, now)|
  {
    PrunedIsTrueHistory(ts, rs, clock, now);
    var k := |Pruned(rs, now)|;
    assert Within(ts, now - SECOND + 1, now + 1) == Range(|ts| - k, k);
  }

  // Admissions that are never released

  lemma NothingReleasesStranded(policy: Policy, s: State, e: Event, ip: Ip)
    requires Enabled(s, e)
    ensures Step(policy, s, e).stranded[ip] >= s.stranded[ip]
  {}

  lemma RefusedWhenStranded(policy: Policy, s: State, e: Event, ip: Ip)
    requires policy.maxConnsPerIp.Some? && Enabled(s, e) && CapAccounting(policy, s)
    requires s.stranded[ip] >= policy.maxConnsPerIp.value
    ensures Times(Step(policy, s, e).admitted, ip) == Times(s.admitted, ip)
  {
    assert CapAt(policy, s, ip);
    match e
    case Connect(_, Some(from), now) =>
      CheckCounts(policy, s.table, from, now, ip);
      TimesSnoc(s.admitted, (from, now), ip);
    case Datagram(from, now) =>
      CheckCounts(policy, s.table, from, now, ip);
      TimesSnoc(s.admitted, (from, now), ip);
    case _ =>
  }

  /** Datagrams and failed set-ups use up an address's cap for good: once as many
      are stranded as the cap allows, the address is never admitted again. */
  lemma {:induction false} LockedOutForGood(
    policy: Policy, states: seq<State>, events: seq<Event>, i: nat, j: nat, ip: Ip)
    requires policy.maxConnsPerIp.Some? && IsRun(policy, states, events) && i <= j < |states|
    requires states[i].stranded[ip] >= policy.maxConnsPerIp.value
    ensures states[j].stranded[ip] >= policy.maxConnsPerIp.value
    ensures Times(states[j].admitted, ip) == Times(states[i].admitted, ip)
  {
    if i < j {
      LockedOutForGood(policy, states, events, i, j - 1, ip);
      Accounting(policy, states, events, j - 1);
      NothingReleasesStranded(policy, states[j - 1], events[j - 1], ip);
      RefusedWhenStranded(policy, states[j - 1], events[j - 1], ip);
    }
  }

  // When an address is admitted, and when it never is again

  /** The allow list lets the address through: there is none, or it names the
      address or either wildcard. */
  ghost predicate Listed(policy: Policy, ip: Ip) {
    policy.allowIps.Some? ==>
      ip in policy.allowIps.value || "0.0.0.0/0" in policy.allowIps.value || "::/0" in policy.allowIps.value
  }

  lemma ListedExactly(policy: Policy, ip: Ip)
    ensures Allowed(policy, ip) <==> Listed(policy, ip)
  {
    assert Matches(ip, ip) && Matches(ip, "0.0.0.0/0") && Matches(ip, "::/0");
  }

  /** Live connections and stranded admissions leave room under the cap. */
  ghost predicate HasRoom(policy: Policy, s: State, ip: Ip) {
    policy.maxConnsPerIp.Some? ==> |Live(s.conns, ip)| + s.stranded[ip] < policy.maxConnsPerIp.value
  }

  /** One more admission keeps the last second within the limit. */
  ghost predicate IsQuiet(policy: Policy, s: State, ip: Ip, now: Time) {
    policy.cpsLimit.Some? ==>
      (|Within(Times(s.admitted, ip), now - 1_000_000_000 + 1, now + 1)| + 1) as real <= policy.cpsLimit.value
  }

  /** The verdict, for every policy and in every reachable state. */
  lemma VerdictExactly(policy: Policy, states: seq<State>, events: seq<Event>, i: nat, ip: Ip, now: Time)
    requires IsRun(policy, states, events) && i < |states| && states[i].clock <= now
    ensures Check(policy, states[i].table, ip, now).0 ==
      if !Listed(policy, ip) then NotAllowed
      else if !HasRoom(policy, states[i], ip) then TooManyConnections
      else if !IsQuiet(policy, states[i], ip, now) then RateExceeded
      else Admitted
  {
    ListedExactly(policy, ip);
    Accounting(policy, states, events, i);
    if policy.maxConnsPerIp.Some? {
      assert CapAt(policy, states[i], ip);
    }
    if Listed(policy, ip) && HasRoom(policy, states[i], ip) && policy.cpsLimit.Some? {
      RefusalIsJustified(policy, states, events, i, ip, now);
      BelowFloor(|Within(Times(states[i].admitted, ip), now - SECOND + 1, now + 1)|, policy.cpsLimit.value);
    }
  }

  /** Once a check has come to the rate limit, the table lists of the address
      exactly the admissions of the last second, the new one included. */
  lemma ListedTimesExactly(policy: Policy, states: seq<State>, events: seq<Event>, i: nat, ip: Ip, now: Time)
    requires policy.cpsLimit.Some? && IsRun(policy, states, events) && i < |states| && states[i].clock <= now
    requires Listed(policy, ip) && HasRoom(policy, states[i], ip)
    ensures var (v, after) := Check(policy, states[i].table, ip, now);
      var ts := Times(states[i].admitted, ip);
      var k := |Within(ts, now - 1_000_000_000 + 1, now + 1)|;
      k <= |ts| && StatsOf(after, ip).recent == ts[|ts| - k..] + (if v == Admitted then [now] else [])
  {
    ListedExactly(policy, ip);
    Accounting(policy, states, events, i);
    if policy.maxConnsPerIp.Some? {
      assert CapAt(policy, states[i], ip);
    }
    RateInvariant(policy, states, events, i, ip);
    var rs := StatsOf(states[i].table, ip).recent;
    LastSecond(Times(states[i].admitted, ip), rs, states[i].clock, now);
    PrunedIsTrueHistory(Times(states[i].admitted, ip), rs, states[i].clock, now);
    CheckRates(policy, states[i].table, ip, now);
  }

  lemma CheckRates(policy: Policy, table: map<Ip, IpStats>, ip: Ip, now: Time)
    requires policy.cpsLimit.Some? && Allowed(policy, ip)
    requires policy.maxConnsPerIp.Some? ==> StatsOf(table, ip).active < policy.maxConnsPerIp.value
    ensures var (v, after) := Check(policy, table, ip, now);
      StatsOf(after, ip).recent == Pruned(StatsOf(table, ip).recent, now) + (if v == Admitted then [now] else [])
  {}

  /** Without a cap nothing is ever released: the counter is the number of
      admissions, or is not kept at all without a rate limit either. */
  lemma {:induction false} UncappedCounts(policy: Policy, states: seq<State>, events: seq<Event>, i: nat, ip: Ip)
    requires policy.maxConnsPerIp.None? && IsRun(policy, states, events) && i < |states|
    ensures StatsOf(states[i].table, ip).active == if policy.cpsLimit.Some? then |Times(states[i].admitted, ip)| else 0
  {
    if i > 0 {
      UncappedCounts(policy, states, events, i - 1, ip);
      UncappedStep(policy, states[i - 1], events[i - 1], ip);
    }
  }

  lemma UncappedCheck(policy: Policy, table: map<Ip, IpStats>, from: Ip, now: Time, ip: Ip)
    requires policy.maxConnsPerIp.None?
    ensures var (v, after) := Check(policy, table, from, now);
      StatsOf(after, ip).active ==
        StatsOf(table, ip).active + (if policy.cpsLimit.Some? && v == Admitted && from == ip then 1 else 0)
  {}

  lemma UncappedStep(policy: Policy, s: State, e: Event, ip: Ip)
    requires policy.maxConnsPerIp.None? && Enabled(s, e)
    requires StatsOf(s.table, ip).active == if policy.cpsLimit.Some? then |Times(s.admitted, ip)| else 0
    ensures var t := Step(policy, s, e);
      StatsOf(t.table, ip).active == if policy.cpsLimit.Some? then |Times(t.admitted, ip)| else 0
  {
    match e
    case Connect(_, Some(from), now) => UncappedArrival(policy, s, e, from, now, ip);
    case Datagram(from, now) => UncappedArrival(policy, s, e, from, now, ip);
    case _ =>
  }

  lemma UncappedArrival(policy: Policy, s: State, e: Event, from: Ip, now: Time, ip: Ip)
    requires policy.maxConnsPerIp.None? && Enabled(s, e)
    requires e == Datagram(from, now) || (e.Connect? && e.peer == Some(from) && e.now == now)
    ensures var t := Step(policy, s, e);
      StatsOf(t.table, ip).active - StatsOf(s.table, ip).active
        == if policy.cpsLimit.Some? then |Times(t.admitted, ip)| - |Times(s.admitted, ip)| else 0
  {
    UncappedCheck(policy, s.table, from, now, ip);
    TimesSnoc(s.admitted, (from, now), ip);
  }

  lemma BelowFloor(n: nat, limit: real)
    ensures n < WindowCap(limit) <==> (n + 1) as real <= limit
  {}

  /** Every admission of every run is of an address the list lets through. */
  lemma {:induction false} AdmittedAreListed(policy: Policy, states: seq<State>, events: seq<Event>, i: nat, k: nat)
    requires IsRun(policy, states, events) && i < |states| && k < |states[i].admitted|
    ensures Listed(policy, states[i].admitted[k].0)
  {
    if i > 0 {
      var s, e := states[i - 1], events[i - 1];
      if k < |s.admitted| {
        AdmittedAreListed(policy, states, events, i - 1, k);
        assert states[i].admitted[k] == s.admitted[k];
      } else {
        ListedExactly(policy, states[i].admitted[k].0);
        AdmittedNow(policy, s, e);
      }
    }
  }

  lemma AdmittedNow(policy: Policy, s: State, e: Event)
    requires Enabled(s, e)
    ensures var t := Step(policy, s, e);
      && |s.admitted| <= |t.admitted| <= |s.admitted| + 1
      && (|t.admitted| > |s.admitted| ==> Allowed(policy, t.admitted[|s.admitted|].0))
  {}

  /** With a cap, an address on the list is admitted exactly when its live
      connections and its stranded admissions stay below it and the last second
      is not full. */
  lemma AdmittedExactly(policy: Policy, states: seq<State>, events: seq<Event>, i: nat, ip: Ip, now: Time)
    requires policy.maxConnsPerIp.Some? && Listed(policy, ip)
    requires IsRun(policy, states, events) && i < |states| && states[i].clock <= now
    ensures Check(policy, states[i].table, ip, now).0 == Admitted <==>
      && |Live(states[i].conns, ip)| + states[i].stranded[ip] < policy.maxConnsPerIp.value
      && (policy.cpsLimit.Some? ==>
            (|Within(Times(states[i].admitted, ip), now - 1_000_000_000 + 1, now + 1)| + 1) as real <= policy.cpsLimit.value)
  {
    VerdictExactly(policy, states, events, i, ip, now);
  }

  ghost function Last(states: seq<State>): State
    requires |states| > 0
  {
    states[|states| - 1]
  }

  /** The policy admits someone at this address at some time. */
  ghost predicate Admissible(policy: Policy, ip: Ip) {
    && policy.maxConnsPerIp.Some? && Listed(policy, ip)
    && (policy.cpsLimit.Some? ==> policy.cpsLimit.value >= 1.0)
  }

  lemma RunExtended(policy: Policy, states: seq<State>, events: seq<Event>, e: Event)
    requires IsRun(policy, states, events) && Enabled(Last(states), e)
    ensures IsRun(policy, states + [Step(policy, Last(states), e)], events + [e])
  {}

  /** A second after the last event no window is full. */
  lemma QuietSecond(policy: Policy, states: seq<State>, events: seq<Event>, ip: Ip)
    requires policy.cpsLimit.Some? && IsRun(policy, states, events)
    ensures Within(Times(Last(states).admitted, ip), Last(states).clock + 1, Last(states).clock + SECOND + 1) == {}
  {
    RateInvariant(policy, states, events, |states| - 1, ip);
  }

  lemma DatagramAdmitted(policy: Policy, states: seq<State>, events: seq<Event>, ip: Ip)
    returns (e: Event, t: State)
    requires Admissible(policy, ip) && IsRun(policy, states, events)
    requires |Live(Last(states).conns, ip)| + Last(states).stranded[ip] < policy.maxConnsPerIp.value
    ensures e == Datagram(ip, Last(states).clock + SECOND) && t == Step(policy, Last(states), e)
    ensures IsRun(policy, states + [t], events + [e])
    ensures t.conns == Last(states).conns && t.stranded[ip] == Last(states).stranded[ip] + 1
    ensures Times(t.admitted, ip) == Times(Last(states).admitted, ip) + [e.now]
  {
    var s := Last(states);
    e := Datagram(ip, s.clock + SECOND);
    t := Step(policy, s, e);
    AdmittedExactly(policy, states, events, |states| - 1, ip, e.now);
    if policy.cpsLimit.Some? {
      QuietSecond(policy, states, events, ip);
    }
    TimesSnoc(s.admitted, (ip, e.now), ip);
    RunExtended(policy, states, events, e);
  }

  /** The lock-out is reachable: for any cap, that many datagrams, a second
      apart, strand that many admissions. */
  lemma {:induction false} DatagramsStrand(policy: Policy, ip: Ip, n: nat)
    returns (states: seq<State>, events: seq<Event>)
    requires Admissible(policy, ip) && n <= policy.maxConnsPerIp.value
    ensures IsRun(policy, states, events) && |events| == n
    ensures forall i :: 0 <= i < n ==> events[i].Datagram? && events[i].ip == ip
    ensures Last(states).stranded[ip] == n && Last(states).conns == map[]
  {
    if n == 0 {
      states, events := [INITIAL], [];
    } else {
      var ss, es := DatagramsStrand(policy, ip, n - 1);
      assert Live(Last(ss).conns, ip) == {};
      var e, t := DatagramAdmitted(policy, ss, es, ip);
      states, events := ss + [t], es + [e];
      assert Last(states) == t;
      assert forall i :: 0 <= i < n - 1 ==> events[i] == es[i];
    }
  }

  /** Every run can go on until all its connections have ended. */
  lemma {:induction false} Drained(policy: Policy, states: seq<State>, events: seq<Event>)
    returns (states2: seq<State>, events2: seq<Event>)
    requires IsRun(policy, states, events)
    ensures IsRun(policy, states2, events2) && states <= states2
    ensures Last(states2).conns == map[] && Last(states2).stranded == Last(states).stranded
    ensures Last(states2).admitted == Last(states).admitted
    decreases |Last(states).conns|
  {
    var s := Last(states);
    if s.conns == map[] {
      states2, events2 := states, events;
    } else {
      var id: ConnId :| id in s.conns;
      DecrementNeverSaturates(policy, states, events, |states| - 1, id);
      var e := Finished(id, true, true);
      var t := Step(policy, s, e);
      RunExtended(policy, states, events, e);
      SizeAfter(s.conns, id, None);
      states2, events2 := Drained(policy, states + [t], events + [e]);
    }
  }

  /** However the run goes on, the address is not admitted again. */
  ghost predicate NeverAgain(policy: Policy, states: seq<State>, ip: Ip)
    requires |states| > 0
  {
    forall states2: seq<State>, events2: seq<Event> ::
      IsRun(policy, states2, events2) && states <= states2 ==>
        Times(Last(states2).admitted, ip) == Times(Last(states).admitted, ip)
  }

  /** An address the policy would admit is locked out for good exactly when its
      stranded admissions have used up the cap. */
  lemma LockedOutExactly(policy: Policy, states: seq<State>, events: seq<Event>, ip: Ip)
    requires Admissible(policy, ip) && IsRun(policy, states, events)
    ensures NeverAgain(policy, states, ip) <==> Last(states).stranded[ip] >= policy.maxConnsPerIp.value
  {
    if Last(states).stranded[ip] >= policy.maxConnsPerIp.value {
      forall states2: seq<State>, events2: seq<Event> | IsRun(policy, states2, events2) && states <= states2
        ensures Times(Last(states2).admitted, ip) == Times(Last(states).admitted, ip)
      {
        LockedOutForGood(policy, states2, events2, |states| - 1, |states2| - 1, ip);
      }
    } else {
      var states2, events2 := Drained(policy, states, events);
      assert Live(Last(states2).conns, ip) == {};
      var e, t := DatagramAdmitted(policy, states2, events2, ip);
      var states3 := states2 + [t];
      assert IsRun(policy, states3, events2 + [e]) && states <= states3 && Last(states3) == t;
    }
  }
}
