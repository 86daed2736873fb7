/** The UDP session table and its relay tasks, in every interleaving. The table's
    lock is held from the lookup of a packet to its send, across the spawn of a
    new relay; relays leave their loop at any time and then take the lock. */
module UdpSessions {
  import opened Basics

  type Addr = string
  type Socket = nat
  type RelayId = nat

  datatype Phase = Relaying | LoopEnded | CleanedUp

  datatype Relay = Relay(client: Addr, socket: Socket, phase: Phase)

  /** Progress of the packet that holds the lock. */
  datatype Stage = Entered | Spawned(relay: RelayId, socket: Socket) | Ready(outgoing: Socket)

  datatype Lock = Free | Held(client: Addr, stage: Stage)

  datatype State = State(sessions: map<Addr, Socket>, relays: map<RelayId, Relay>, lock: Lock)

  datatype Event =
    | Enter(client: Addr)
    | Reuse
    | SetupFails
    | Spawn(relay: RelayId, socket: Socket)
    | Insert
    | Send
    | EndLoop(r: RelayId)
    | Cleanup(r: RelayId)

  const INITIAL := State(map[], map[], Free)

  predicate Unfinished(s: State, r: RelayId) {
    r in s.relays && s.relays[r].phase != CleanedUp
  }

  /** A new relay and a socket no unfinished relay holds. */
  predicate FreshFor(s: State, relay: RelayId, socket: Socket) {
    relay !in s.relays && forall r :: r in s.relays && Unfinished(s, r) ==> s.relays[r].socket != socket
  }

  predicate Enabled(s: State, e: Event) {
    match e
    case Enter(_) => s.lock == Free
    case Reuse => s.lock.Held? && s.lock.stage == Entered && s.lock.client in s.sessions
    case SetupFails => s.lock.Held? && s.lock.stage == Entered && s.lock.client !in s.sessions
    case Spawn(relay, socket) =>
      s.lock.Held? && s.lock.stage == Entered && s.lock.client !in s.sessions && FreshFor(s, relay, socket)
    case Insert => s.lock.Held? && s.lock.stage.Spawned?
    case Send => s.lock.Held? && s.lock.stage.Ready?
    case EndLoop(r) => r in s.relays && s.relays[r].phase == Relaying
    case Cleanup(r) => r in s.relays && s.relays[r].phase == LoopEnded && s.lock == Free
  }

  function Step(s: State, e: Event): State
    requires Enabled(s, e)
  {
    match e
    case Enter(client) => s.(lock := Held(client, Entered))
    case Reuse => s.(lock := Held(s.lock.client, Ready(s.sessions[s.lock.client])))
    case SetupFails => s.(lock := Free)
    case Spawn(relay, socket) =>
      s.(relays := s.relays[relay := Relay(s.lock.client, socket, Relaying)],
         lock := Held(s.lock.client, Spawned(relay, socket)))
    case Insert =>
      s.(sessions := s.sessions[s.lock.client := s.lock.stage.socket],
         lock := Held(s.lock.client, Ready(s.lock.stage.socket)))
    case Send => s.(lock := Free)
    case EndLoop(r) => s.(relays := s.relays[r := s.relays[r].(phase := LoopEnded)])
    case Cleanup(r) =>
      s.(relays := s.relays[r := s.relays[r].(phase := CleanedUp)],
         sessions := s.sessions - {s.relays[r].client})
  }

  // Ownership

  predicate Owns(s: State, r: RelayId) {
    Unfinished(s, r) && s.relays[r].client in s.sessions && s.sessions[s.relays[r].client] == s.relays[r].socket
  }

  /** The relay spawned by the lock holder but not yet entered in the table. */
  predicate BeingInserted(s: State, r: RelayId) {
    s.lock.Held? && s.lock.stage.Spawned? && s.lock.stage.relay == r
  }

  ghost predicate AllOwn(s: State) {
    forall r :: Unfinished(s, r) && !BeingInserted(s, r) ==> Owns(s, r)
  }

  ghost predicate AllOwned(s: State) {
    forall c :: c in s.sessions ==> exists r :: Owns(s, r) && s.relays[r].client == c
  }

  ghost predicate Distinct(s: State) {
    forall r, q :: Unfinished(s, r) && Unfinished(s, q) && r != q ==>
      s.relays[r].client != s.relays[q].client && s.relays[r].socket != s.relays[q].socket
  }

  ghost predicate LockConsistent(s: State) {
    && (s.lock.Held? && s.lock.stage.Spawned? ==>
          var Spawned(r, socket) := s.lock.stage;
          && s.lock.client !in s.sessions
          && Unfinished(s, r) && s.relays[r].client == s.lock.client && s.relays[r].socket == socket)
    && (s.lock.Held? && s.lock.stage.Ready? ==>
          s.lock.client in s.sessions && s.sessions[s.lock.client] == s.lock.stage.outgoing)
  }

  ghost predicate Inv(s: State) {
    AllOwn(s) && AllOwned(s) && Distinct(s) && LockConsistent(s)
  }

  lemma AllOwnKept(s: State, e: Event)
    requires Inv(s) && Enabled(s, e)
    ensures AllOwn(Step(s, e))
  {
    var t := Step(s, e);
    forall r | Unfinished(t, r) && !BeingInserted(t, r) ensures Owns(t, r) {
      assert Unfinished(s, r);
      if e.Cleanup? {
        assert s.relays[r].client != s.relays[e.r].client;
      }
    }
  }

  lemma AllOwnedKept(s: State, e: Event)
    requires Inv(s) && Enabled(s, e)
    ensures AllOwned(Step(s, e))
  {
    var t := Step(s, e);
    forall c | c in t.sessions ensures exists r :: Owns(t, r) && t.relays[r].client == c {
      if e.Insert? && c == s.lock.client {
        assert Owns(t, s.lock.stage.relay);
      } else {
        var r: RelayId :| Owns(s, r) && s.relays[r].client == c;
        assert Owns(t, r);
      }
    }
  }

  lemma DistinctKept(s: State, e: Event)
    requires Inv(s) && Enabled(s, e)
    ensures Distinct(Step(s, e))
  {
    var t := Step(s, e);
    forall r, q | Unfinished(t, r) && Unfinished(t, q) && r != q
      ensures t.relays[r].client != t.relays[q].client && t.relays[r].socket != t.relays[q].socket
    {
      if e.Spawn? && r == e.relay {
        assert Owns(s, q);
      } else if e.Spawn? && q == e.relay {
        assert Owns(s, r);
      }
    }
  }

  lemma InvKept(s: State, e: Event)
    requires Inv(s) && Enabled(s, e)
    ensures Inv(Step(s, e))
  {
    AllOwnKept(s, e);
    AllOwnedKept(s, e);
    DistinctKept(s, e);
  }

  ghost predicate IsRun(states: seq<State>, events: seq<Event>) {
    && |states| == |events| + 1
    && states[0] == INITIAL
    && forall i :: 0 <= i < |events| ==> Enabled(states[i], events[i]) && states[i + 1] == Step(states[i], events[i])
  }

  lemma {:induction false} InvHolds(states: seq<State>, events: seq<Event>, i: nat)
    requires IsRun(states, events) && i < |states|
    ensures Inv(states[i])
  {
    if i > 0 {
      InvHolds(states, events, i - 1);
      InvKept(states[i - 1], events[i - 1]);
    }
  }

  ghost function Owners(s: State, c: Addr): set<RelayId> {
    set r | r in s.relays && Owns(s, r) && s.relays[r].client == c
  }

  /** In every state, entries and unfinished relays match one to one, socket for
      socket; the only relay without its entry is the one being entered by the
      holder of the lock. */
  lemma ExactOwnership(states: seq<State>, events: seq<Event>, i: nat)
    requires IsRun(states, events) && i < |states|
    ensures forall c :: c in states[i].sessions ==> |Owners(states[i], c)| == 1
    ensures forall r :: Unfinished(states[i], r) ==> (Owns(states[i], r) <==> !BeingInserted(states[i], r))
  {
    InvHolds(states, events, i);
    var s := states[i];
    forall c | c in s.sessions ensures |Owners(s, c)| == 1 {
      var r: RelayId :| Owns(s, r) && s.relays[r].client == c;
      assert Owners(s, c) == {r};
    }
  }

  /** A relay that cleans up removes its own session and leaves no relay behind
      for its client; every other session stays. */
  lemma CleanupRemovesOwnSession(states: seq<State>, events: seq<Event>, i: nat, r: RelayId)
    requires IsRun(states, events) && i < |events| && events[i] == Cleanup(r)
    ensures var s, t := states[i], states[i + 1];
      var client := s.relays[r].client;
      && Owns(s, r)
      && (forall q :: Unfinished(t, q) ==> t.relays[q].client != client)
      && client !in t.sessions
      && (forall c :: c in s.sessions && c != client ==> c in t.sessions && t.sessions[c] == s.sessions[c])
  {
    InvHolds(states, events, i);
    var s, t := states[i], states[i + 1];
    assert Unfinished(s, r);
    forall q | Unfinished(t, q) ensures t.relays[q].client != s.relays[r].client {
      assert Unfinished(s, q) && q != r;
    }
  }

  /** A packet always goes out on a socket whose relay has not been cleaned up. */
  lemma SentThroughOwnedSocket(states: seq<State>, events: seq<Event>, i: nat)
    requires IsRun(states, events) && i < |events| && events[i] == Send
    ensures var s := states[i];
      exists r :: Owns(s, r) && s.relays[r].client == s.lock.client && s.relays[r].socket == s.lock.stage.outgoing
  {
    InvHolds(states, events, i);
    var s := states[i];
    var r: RelayId :| Owns(s, r) && s.relays[r].client == s.lock.client;
  }

  /** A relay that still reads from the socket. */
  predicate Reads(s: State, r: RelayId, socket: Socket) {
    r in s.relays && s.relays[r].phase == Relaying && s.relays[r].socket == socket
  }

  /** A relay is in its loop exactly until its loop has ended. */
  lemma {:induction false} RelayingExactly(states: seq<State>, events: seq<Event>, i: nat, r: RelayId)
    requires IsRun(states, events) && i < |states|
    ensures r in states[i].relays ==>
      (states[i].relays[r].phase == Relaying <==> EndLoop(r) !in events[..i])
    ensures r !in states[i].relays ==> EndLoop(r) !in events[..i]
  {
    if i > 0 {
      RelayingExactly(states, events, i - 1, r);
      PhaseAfter(states[i - 1], events[i - 1], r);
      assert events[..i] == events[..i - 1] + [events[i - 1]];
    }
  }

  lemma PhaseAfter(s: State, e: Event, r: RelayId)
    requires Enabled(s, e)
    ensures var t := Step(s, e);
      && (r in s.relays ==> r in t.relays && (t.relays[r].phase == Relaying <==> s.relays[r].phase == Relaying && e != EndLoop(r)))
      && (r !in s.relays ==> e != EndLoop(r) && (r in t.relays ==> t.relays[r].phase == Relaying))
  {}

  /** When a packet is sent its socket still has a reader exactly if the relay
      that owns the client's entry has not ended its loop; until that relay has
      cleaned up, packets still go out through its socket. */
  lemma ReplyIsReadExactly(states: seq<State>, events: seq<Event>, i: nat, owner: RelayId)
    requires IsRun(states, events) && i < |events| && events[i] == Send
    requires Owns(states[i], owner) && states[i].relays[owner].client == states[i].lock.client
    ensures var s := states[i];
      (exists r :: Reads(s, r, s.lock.stage.outgoing)) <==> EndLoop(owner) !in events[..i]
  {
    InvHolds(states, events, i);
    RelayingExactly(states, events, i, owner);
    var s := states[i];
    assert s.relays[owner].socket == s.lock.stage.outgoing;
    if EndLoop(owner) !in events[..i] {
      assert Reads(s, owner, s.lock.stage.outgoing);
    } else if r: RelayId :| Reads(s, r, s.lock.stage.outgoing) {
      assert Unfinished(s, r) && Unfinished(s, owner) && r != owner;
    }
  }

  /** Such a packet: the relay's loop has ended, its clean-up has not run. */
  lemma SentToNobody(c: Addr) returns (states: seq<State>, events: seq<Event>)
    ensures events == [Enter(c), Spawn(0, 0), Insert, Send, EndLoop(0), Enter(c), Reuse, Send]
    ensures IsRun(states, events)
    ensures var s := states[7];
      && Owns(s, 0) && s.lock == Held(c, Ready(0)) && s.relays[0].client == c
      && !exists r :: Reads(s, r, 0)
  {
    events := [Enter(c), Spawn(0, 0), Insert, Send, EndLoop(0), Enter(c), Reuse, Send];
    var s1 := Step(INITIAL, events[0]);
    var s2 := Step(s1, events[1]);
    var s3 := Step(s2, events[2]);
    var s4 := Step(s3, events[3]);
    var s5 := Step(s4, events[4]);
    var s6 := Step(s5, events[5]);
    var s7 := Step(s6, events[6]);
    states := [INITIAL, s1, s2, s3, s4, s5, s6, s7, Step(s7, events[7])];
  }

  // The code of the two locked regions

  function Steps(s: State, events: seq<Event>): Option<State>
    decreases |events|
  {
    if events == [] then Some(s)
    else if Enabled(s, events[0]) then Steps(Step(s, events[0]), events[1..])
    else None
  }

  /** What happens under the lock for one packet. */
  function PacketSteps(known: bool, client: Addr, setUp: bool, relay: RelayId, socket: Socket): seq<Event> {
    if known then [Enter(client), Reuse, Send]
    else if !setUp then [Enter(client), SetupFails]
    else [Enter(client), Spawn(relay, socket), Insert, Send]
  }

  datatype PacketResult = Forwarded(via: Socket) | BindFailed | ConnectFailed | SendFailed(via: Socket)

  class SessionTable {
    var sessions: map<Addr, Socket>
    var relays: map<RelayId, Relay>

    constructor ()
      ensures View() == INITIAL
    {
      sessions := map[];
      relays := map[];
    }

    /** The state as seen while nobody holds the lock. */
    function View(): State
      reads this
    {
      State(sessions, relays, Free)
    }

    /** The locked region of one packet; `relay` and `socket` are what a spawn
        and a bind would produce, the flags how the system calls turn out. */
    method HandleUdpPacket(client: Addr, bound: bool, connected: bool, sent: bool, relay: RelayId, socket: Socket)
      returns (r: PacketResult)
      requires FreshFor(View(), relay, socket)
      modifies this
      ensures Steps(old(View()), PacketSteps(client in old(sessions), client, bound && connected, relay, socket)) == Some(View())
      ensures client in old(sessions) ==> r == (if sent then Forwarded(old(sessions)[client]) else SendFailed(old(sessions)[client]))
      ensures client !in old(sessions) ==>
        r == if !bound then BindFailed else if !connected then ConnectFailed else if sent then Forwarded(socket) else SendFailed(socket)
    {
      PacketOutcome(View(), client, bound && connected, relay, socket);
      var backend: Socket;
      if client in sessions {
        backend := sessions[client];
      } else {
        if !bound {
          return BindFailed;
        }
        if !connected {
          return ConnectFailed;
        }
        relays := relays[relay := Relay(client, socket, Relaying)];
        sessions := sessions[client := socket];
        backend := socket;
      }
      r := if sent then Forwarded(backend) else SendFailed(backend);
    }

    method CleanUp(r: RelayId)
      requires r in relays && relays[r].phase == LoopEnded
      modifies this
      ensures View() == Step(old(View()), Cleanup(r))
    {
      sessions := sessions - {relays[r].client};
      relays := relays[r := relays[r].(phase := CleanedUp)];
    }
  }

  lemma StepFirst(s: State, e: Event, rest: seq<Event>)
    requires Enabled(s, e)
    ensures Steps(s, [e] + rest) == Steps(Step(s, e), rest)
  {
    assert ([e] + rest)[1..] == rest;
  }

  /** The net effect of one packet's steps. */
  lemma PacketOutcome(s: State, client: Addr, setUp: bool, relay: RelayId, socket: Socket)
    requires s.lock == Free && FreshFor(s, relay, socket)
    ensures Steps(s, PacketSteps(client in s.sessions, client, setUp, relay, socket)) == Some(
      if client in s.sessions || !setUp then s
      else s.(sessions := s.sessions[client := socket], relays := s.relays[relay := Relay(client, socket, Relaying)]))
  {
    var s1 := Step(s, Enter(client));
    if client in s.sessions {
      StepFirst(s, Enter(client), [Reuse, Send]);
      StepFirst(s1, Reuse, [Send]);
      StepFirst(Step(s1, Reuse), Send, []);
    } else if !setUp {
      StepFirst(s, Enter(client), [SetupFails]);
      StepFirst(s1, SetupFails, []);
    } else {
      var s2 := Step(s1, Spawn(relay, socket));
      StepFirst(s, Enter(client), [Spawn(relay, socket), Insert, Send]);
      StepFirst(s1, Spawn(relay, socket), [Insert, Send]);
      StepFirst(s2, Insert, [Send]);
      StepFirst(Step(s2, Insert), Send, []);
    }
  }
}
