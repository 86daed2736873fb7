/** The session registry of the reverse-proxy server: listener handles move from
    a handler's local list into the registry and are aborted by the inactivity
    cleaner or by the handler itself. */
module Registry {
  import opened Basics

  type ClientId = string
  type HandlerId = nat
  type Listener = nat

  /** Nanoseconds of a monotonic clock. */
  type Time = nat

  const INACTIVITY_LIMIT: nat := 300 * SECOND

  datatype Session = Session(listeners: seq<Listener>, lastActivity: Time)

  function Elems<T>(s: seq<T>): set<T> {
    set x | x in s
  }

  // The three locked regions

  function Expired(clients: map<ClientId, Session>, now: Time): set<ClientId> {
    set id | id in clients && now - clients[id].lastActivity > INACTIVITY_LIMIT
  }

  function ListenersOf(clients: map<ClientId, Session>, ids: set<ClientId>): set<Listener> {
    set id, l | id in ids && id in clients && l in clients[id].listeners :: l
  }

  /** The shared table and the set of aborted listeners, in step with `model`,
      the state of the step system below. */
  class SessionRegistry {
    var clients: map<ClientId, Session>
    var aborted: set<Listener>
    ghost var model: State

    ghost predicate Valid()
      reads this
    {
      clients == model.clients && aborted == model.aborted && Inv(model)
    }

    constructor ()
      ensures Valid() && model == INITIAL
    {
      clients := map[];
      aborted := {};
      model := INITIAL;
    }

    /** A handler starts, then spawns listeners into its local list. */
    ghost method Begin(h: HandlerId, client: ClientId)
      requires Valid() && Enabled(model, Event.Begin(h, client))
      modifies this`model
      ensures Valid() && model == Step(old(model), Event.Begin(h, client))
    {
      InvKept(model, Event.Begin(h, client));
      model := Step(model, Event.Begin(h, client));
    }

    ghost method Spawn(h: HandlerId, listener: Listener)
      requires Valid() && Enabled(model, Event.Spawn(h, listener))
      modifies this`model
      ensures Valid() && model == Step(old(model), Event.Spawn(h, listener))
    {
      InvKept(model, Event.Spawn(h, listener));
      model := Step(model, Event.Spawn(h, listener));
    }

    /** The listeners move from the local list of handler h into the table. */
    method Register(ghost h: HandlerId, id: ClientId, listeners: seq<Listener>, now: Time)
      requires Valid() && h in model.handlers && model.handlers[h] == Handler(id, Binding(listeners))
      modifies this`clients, this`model
      ensures Valid() && model == Step(old(model), Event.Register(h, now))
      ensures forall l :: (old(InLocal(model, h, l)) <==> InEntry(model, h, l)) && !InLocal(model, h, l)
      ensures forall other :: other in old(clients) ==> other != id && other in clients && clients[other] == old(clients)[other]
    {
      NoEntryWhileBinding(model, h);
      InvKept(model, Event.Register(h, now));
      clients := clients[id := Session(listeners, now)];
      model := Step(model, Event.Register(h, now));
    }

    method AbortAll(handles: seq<Listener>)
      modifies this`aborted
      ensures aborted == old(aborted) + Elems(handles)
    {
      var i := 0;
      while i < |handles|
        invariant 0 <= i <= |handles|
        invariant aborted == old(aborted) + Elems(handles[..i])
      {
        aborted := aborted + {handles[i]};
        assert handles[..i + 1] == handles[..i] + [handles[i]];
        i := i + 1;
      }
      assert handles[..i] == handles;
    }

    /** One tick of the cleaner: sessions silent for more than five minutes go. */
    method CleanUp(now: Time)
      requires Valid()
      modifies this
      ensures Valid() && model == Step(old(model), Tick(now))
      ensures clients == old(clients) - Expired(old(clients), now)
      ensures aborted == old(aborted) + ListenersOf(old(clients), Expired(old(clients), now))
    {
      InvKept(model, Tick(now));
      RemoveExpired(now);
      model := Step(model, Tick(now));
    }

    method RemoveExpired(now: Time)
      modifies this`clients, this`aborted
      ensures clients == old(clients) - Expired(old(clients), now)
      ensures aborted == old(aborted) + ListenersOf(old(clients), Expired(old(clients), now))
    {
      ghost var before := clients;
      var toRemove := Expired(clients, now);
      ghost var removed: set<ClientId> := {};
      while toRemove != {}
        invariant removed !! toRemove && removed + toRemove == Expired(before, now)
        invariant clients == before - removed
        invariant aborted == old(aborted) + ListenersOf(before, removed)
        decreases |toRemove|
      {
        var id :| id in toRemove;
        toRemove := toRemove - {id};
        var session := clients[id];
        clients := clients - {id};
        AbortAll(session.listeners);
        assert ListenersOf(before, removed + {id}) == ListenersOf(before, removed) + Elems(session.listeners);
        removed := removed + {id};
      }
    }

    /** The end of handler h. */
    method Disconnect(ghost h: HandlerId, id: ClientId)
      requires Valid() && Enabled(model, Event.Disconnect(h)) && model.handlers[h].client == id
      modifies this
      ensures Valid() && model == Step(old(model), Event.Disconnect(h))
      ensures clients == old(clients) - {id}
      ensures aborted == old(aborted) + ListenersOf(old(clients), {id})
    {
      InvKept(model, Event.Disconnect(h));
      assert id in clients ==> ListenersOf(clients, {id}) == Elems(clients[id].listeners);
      if id in clients {
        var session := clients[id];
        clients := clients - {id};
        AbortAll(session.listeners);
      }
      model := Step(model, Event.Disconnect(h));
    }
  }

  // Runs

  datatype Phase = Binding(local: seq<Listener>) | Serving(since: Time) | Finished

  datatype Handler = Handler(client: ClientId, phase: Phase)

  /** `owner` remembers which handler spawned each listener. */
  datatype State = State(
    clients: map<ClientId, Session>,
    aborted: set<Listener>,
    handlers: map<HandlerId, Handler>,
    owner: map<Listener, HandlerId>)

  datatype Event =
    | Begin(h: HandlerId, client: ClientId)
    | Spawn(h: HandlerId, listener: Listener)
    | Register(h: HandlerId, at: Time)
    | Tick(now: Time)
    | Disconnect(h: HandlerId)

  const INITIAL := State(map[], {}, map[], map[])

  predicate Running(s: State, h: HandlerId) {
    h in s.handlers && s.handlers[h].phase != Finished
  }

  /** Handler ids are fresh and no two running handlers serve the same peer. */
  predicate Enabled(s: State, e: Event) {
    match e
    case Begin(h, client) =>
      h !in s.handlers && forall g :: g in s.handlers && Running(s, g) ==> s.handlers[g].client != client
    case Spawn(h, listener) => h in s.handlers && s.handlers[h].phase.Binding? && listener !in s.owner
    case Register(h, _) => h in s.handlers && s.handlers[h].phase.Binding?
    case Tick(_) => true
    case Disconnect(h) => h in s.handlers && s.handlers[h].phase.Serving?
  }

  function Step(s: State, e: Event): State
    requires Enabled(s, e)
  {
    match e
    case Begin(h, client) => s.(handlers := s.handlers[h := Handler(client, Binding([]))])
    case Spawn(h, l) =>
      s.(handlers := s.handlers[h := s.handlers[h].(phase := Binding(s.handlers[h].phase.local + [l]))],
         owner := s.owner[l := h])
    case Register(h, at) =>
      s.(clients := s.clients[s.handlers[h].client := Session(s.handlers[h].phase.local, at)],
         handlers := s.handlers[h := s.handlers[h].(phase := Serving(at))])
    case Tick(now) =>
      s.(clients := s.clients - Expired(s.clients, now),
         aborted := s.aborted + ListenersOf(s.clients, Expired(s.clients, now)))
    case Disconnect(h) =>
      s.(clients := s.clients - {s.handlers[h].client},
         aborted := s.aborted + ListenersOf(s.clients, {s.handlers[h].client}),
         handlers := s.handlers[h := s.handlers[h].(phase := Finished)])
  }

  // Ownership

  /** Handler h holds l in its local list. */
  predicate InLocal(s: State, h: HandlerId, l: Listener) {
    h in s.handlers && s.handlers[h].phase.Binding? && l in s.handlers[h].phase.local
  }

  /** The registry entry of h's client holds l. */
  predicate InEntry(s: State, h: HandlerId, l: Listener) {
    h in s.handlers && s.handlers[h].phase.Serving? && s.handlers[h].client in s.clients
    && l in s.clients[s.handlers[h].client].listeners
  }

  ghost predicate DistinctClients(s: State) {
    forall g, h :: Running(s, g) && Running(s, h) && s.handlers[g].client == s.handlers[h].client ==> g == h
  }

  /** Every entry belongs to a serving handler and dates from its registration. */
  ghost predicate EntriesServed(s: State) {
    forall id :: id in s.clients ==>
      exists h :: h in s.handlers && s.handlers[h] == Handler(id, Serving(s.clients[id].lastActivity))
  }

  ghost predicate LiveAreHeld(s: State) {
    forall l :: l in s.owner && l !in s.aborted ==> InLocal(s, s.owner[l], l) || InEntry(s, s.owner[l], l)
  }

  ghost predicate HeldAreOwned(s: State) {
    forall h, l :: InLocal(s, h, l) || InEntry(s, h, l) ==> l in s.owner && s.owner[l] == h && l !in s.aborted
  }

  ghost predicate Inv(s: State) {
    DistinctClients(s) && EntriesServed(s) && LiveAreHeld(s) && HeldAreOwned(s) && s.aborted <= s.owner.Keys
  }

  lemma ClientsKept(s: State, e: Event)
    requires Inv(s) && Enabled(s, e)
    ensures DistinctClients(Step(s, e)) && EntriesServed(Step(s, e))
  {
    var t := Step(s, e);
    forall id | id in t.clients
      ensures exists h :: h in t.handlers && t.handlers[h] == Handler(id, Serving(t.clients[id].lastActivity))
    {
      if e.Register? && id == s.handlers[e.h].client {
        assert t.handlers[e.h] == Handler(id, Serving(t.clients[id].lastActivity));
      } else {
        var h: HandlerId :| h in s.handlers && s.handlers[h] == Handler(id, Serving(s.clients[id].lastActivity));
        assert Running(s, h);
        assert t.handlers[h] == s.handlers[h];
      }
    }
  }

  lemma AbortedAreHeld(s: State, ids: set<ClientId>, l: Listener) returns (h: HandlerId)
    requires Inv(s) && l in ListenersOf(s.clients, ids)
    ensures InEntry(s, h, l) && s.handlers[h].client in ids
  {
    var id: ClientId :| id in ids && id in s.clients && l in s.clients[id].listeners;
    h :| h in s.handlers && s.handlers[h] == Handler(id, Serving(s.clients[id].lastActivity));
  }

  lemma RemovedAreAborted(clients: map<ClientId, Session>, ids: set<ClientId>, id: ClientId, l: Listener)
    requires id in clients && l in clients[id].listeners
    ensures id in ids ==> l in ListenersOf(clients, ids)
  {}

  lemma LiveKept(s: State, e: Event)
    requires Inv(s) && Enabled(s, e)
    ensures LiveAreHeld(Step(s, e))
  {
    var t := Step(s, e);
    forall l | l in t.owner && l !in t.aborted ensures InLocal(t, t.owner[l], l) || InEntry(t, t.owner[l], l) {
      if e.Spawn? && l == e.listener {
        assert InLocal(t, e.h, l);
      } else {
        var h := s.owner[l];
        if InLocal(s, h, l) {
          if e.Register? && e.h == h {
            assert InEntry(t, h, l);
          } else {
            assert InLocal(t, h, l);
          }
        } else {
          var id := s.handlers[h].client;
          assert InEntry(s, h, l) && Running(s, h);
          if e.Tick? {
            RemovedAreAborted(s.clients, Expired(s.clients, e.now), id, l);
          } else if e.Disconnect? {
            RemovedAreAborted(s.clients, {s.handlers[e.h].client}, id, l);
          }
          assert InEntry(t, h, l);
        }
      }
    }
  }

  lemma HeldKept(s: State, e: Event)
    requires Inv(s) && Enabled(s, e)
    ensures HeldAreOwned(Step(s, e)) && Step(s, e).aborted <= Step(s, e).owner.Keys
  {
    var t := Step(s, e);
    forall h, l | InLocal(t, h, l) || InEntry(t, h, l) ensures l in t.owner && t.owner[l] == h && l !in t.aborted {
      if e.Spawn? && l == e.listener && h == e.h {
      } else if e.Register? && h == e.h {
        assert InLocal(s, h, l);
      } else {
        assert InLocal(s, h, l) || InEntry(s, h, l);
        if l in t.aborted {
          var ids := if e.Tick? then Expired(s.clients, e.now) else {s.handlers[e.h].client};
          var g := AbortedAreHeld(s, ids, l);
        }
      }
    }
    forall l | l in t.aborted ensures l in t.owner {
      if l !in s.aborted {
        var ids := if e.Tick? then Expired(s.clients, e.now) else {s.handlers[e.h].client};
        var g := AbortedAreHeld(s, ids, l);
      }
    }
  }

  lemma InvKept(s: State, e: Event)
    requires Inv(s) && Enabled(s, e)
    ensures Inv(Step(s, e))
  {
    ClientsKept(s, e);
    LiveKept(s, e);
    HeldKept(s, e);
  }

  /** The table never holds an entry for the peer of a handler still binding. */
  lemma NoEntryWhileBinding(s: State, h: HandlerId)
    requires Inv(s) && h in s.handlers && s.handlers[h].phase.Binding?
    ensures s.handlers[h].client !in s.clients
  {
    var id := s.handlers[h].client;
    if id in s.clients {
      var g: HandlerId :| g in s.handlers && s.handlers[g] == Handler(id, Serving(s.clients[id].lastActivity));
      assert Running(s, g) && Running(s, h);
    }
  }

  ghost predicate IsRun(states: seq<State>, events: seq<Event>) {
    && |states| == |events| + 1
    && states[0] == INITIAL
    && forall i :: 0 <= i < |events| ==> Enabled(states[i], events[i]) && states[i + 1] == Step(states[i], events[i])
  }

  lemma {:induction false} InvHolds(states: seq<State>, events: seq<Event>, i: nat)
    requires IsRun(states, events) && i < |states|
    ensures Inv(states[i])
  {
    if i > 0 {
      InvHolds(states, events, i - 1);
      InvKept(states[i - 1], events[i - 1]);
    }
  }

  /** The table's entry for `id` lists l. */
  predicate Lists(s: State, id: ClientId, l: Listener) {
    id in s.clients && l in s.clients[id].listeners
  }

  lemma ListedThroughHandler(s: State, id: ClientId, l: Listener) returns (h: HandlerId)
    requires Inv(s) && Lists(s, id, l)
    ensures InEntry(s, h, l) && s.handlers[h].client == id && s.owner[l] == h
  {
    h :| h in s.handlers && s.handlers[h] == Handler(id, Serving(s.clients[id].lastActivity));
    assert InEntry(s, h, l);
  }

  /** A listener that was not aborted is in exactly one list: the local one of a
      handler or one entry of the table; an aborted one is in none. */
  lemma ExactlyOneHolder(states: seq<State>, events: seq<Event>, i: nat, l: Listener)
    requires IsRun(states, events) && i < |states| && l in states[i].owner
    ensures var s := states[i];
      && (l !in s.aborted <==> (exists h :: InLocal(s, h, l)) || (exists id :: Lists(s, id, l)))
      && (forall g, h :: InLocal(s, g, l) && InLocal(s, h, l) ==> g == h)
      && (forall id, id2 :: Lists(s, id, l) && Lists(s, id2, l) ==> id == id2)
      && !((exists h :: InLocal(s, h, l)) && (exists id :: Lists(s, id, l)))
  {
    InvHolds(states, events, i);
    var s := states[i];
    forall id | Lists(s, id, l) ensures InEntry(s, s.owner[l], l) && s.handlers[s.owner[l]].client == id {
      var h := ListedThroughHandler(s, id, l);
    }
    assert forall h :: InEntry(s, h, l) ==> Lists(s, s.handlers[h].client, l);
  }

  /** A finished handler leaves no listener behind, whoever removed its entry. */
  lemma FinishedLeavesNothing(states: seq<State>, events: seq<Event>, i: nat, h: HandlerId, l: Listener)
    requires IsRun(states, events) && i < |states|
    requires h in states[i].handlers && states[i].handlers[h].phase == Finished
    requires l in states[i].owner && states[i].owner[l] == h
    ensures l in states[i].aborted
  {
    InvHolds(states, events, i);
  }

  /** Activity never refreshes an entry: a tick keeps the session of a serving
      handler, and its listeners, exactly if it was still there and registered at
      most five minutes before. */
  lemma CleanerEndsExactly(states: seq<State>, events: seq<Event>, i: nat, h: HandlerId)
    requires IsRun(states, events) && i < |events| && events[i].Tick?
    requires h in states[i].handlers && states[i].handlers[h].phase.Serving?
    ensures var s, t := states[i], states[i + 1];
      var id, since := s.handlers[h].client, s.handlers[h].phase.since;
      && (id in t.clients <==> id in s.clients && events[i].now - since <= 300_000_000_000)
      && (id in t.clients ==>
            && t.clients[id] == s.clients[id]
            && forall l :: l in t.owner && t.owner[l] == h ==> (l in t.aborted <==> l in s.aborted))
      && (id !in t.clients ==> forall l :: l in t.owner && t.owner[l] == h ==> l in t.aborted)
  {
    InvHolds(states, events, i);
    InvHolds(states, events, i + 1);
    var s, t := states[i], states[i + 1];
    var id := s.handlers[h].client;
    if id in s.clients {
      DatesFromRegistration(s, h);
      forall l | l in t.owner && t.owner[l] == h && id in t.clients ensures l in t.aborted <==> l in s.aborted {
        if l !in s.aborted {
          assert InEntry(s, h, l);
          assert InEntry(t, h, l);
        }
      }
    }
  }

  lemma DatesFromRegistration(s: State, h: HandlerId)
    requires Inv(s) && h in s.handlers && s.handlers[h].phase.Serving? && s.handlers[h].client in s.clients
    ensures s.clients[s.handlers[h].client].lastActivity == s.handlers[h].phase.since
  {
    var id := s.handlers[h].client;
    var g: HandlerId :| g in s.handlers && s.handlers[g] == Handler(id, Serving(s.clients[id].lastActivity));
    assert Running(s, g) && Running(s, h);
  }

  /** In particular a tick ends every session registered more than five minutes
      before, and aborts all its listeners. */
  lemma CleanerEndsOldSessions(states: seq<State>, events: seq<Event>, i: nat, h: HandlerId)
    requires IsRun(states, events) && i < |events| && events[i].Tick?
    requires var s := states[i];
      h in s.handlers && s.handlers[h].phase.Serving? && events[i].now - s.handlers[h].phase.since > 300_000_000_000
    ensures var t := states[i + 1];
      && t.handlers[h].client !in t.clients
      && forall l :: l in t.owner && t.owner[l] == h ==> l in t.aborted
  {
    CleanerEndsExactly(states, events, i, h);
  }

  /** Such a session: registered at once and ended five minutes and a nanosecond
      later, while its handler still serves. */
  lemma EndedWhileServing(c: ClientId) returns (states: seq<State>, events: seq<Event>)
    ensures events == [Begin(0, c), Spawn(0, 0), Register(0, 0), Tick(300_000_000_001)]
    ensures IsRun(states, events)
    ensures 0 in states[4].handlers && states[4].handlers[0] == Handler(c, Serving(0))
    ensures 0 in states[4].aborted && c in states[3].clients && c !in states[4].clients
  {
    events := [Begin(0, c), Spawn(0, 0), Register(0, 0), Tick(300_000_000_001)];
    var s1 := Step(INITIAL, events[0]);
    var s2 := Step(s1, events[1]);
    var s3 := Step(s2, events[2]);
    var s4 := Step(s3, events[3]);
    assert s3.clients[c].listeners == [0];
    RemovedAreAborted(s3.clients, Expired(s3.clients, 300_000_000_001), c, 0);
    states := [INITIAL, s1, s2, s3, s4];
  }
}
