/** The reverse tunnel as a whole: from the client's configuration file through
    the handshake to the local targets. */
module Deployment {
  import opened Basics
  import opened Wire
  import opened Handshake
  import opened Config
  import opened TextMeaning
  import opened ConfigMeaning
  import opened Tunnel
  import opened Routing

  /** Served `entries` lead from `port` to the host named, or this machine, and
      to the port `target` there. */
  ghost predicate LeadsTo(entries: seq<ProxyEntry>, port: U16, host: Option<string>, target: U16) {
    && (forall rest: Bytes :: ArrivesTcp(DispatchOf(entries, TcpOpening(port) + rest), host, target, rest))
    && (forall payload: Datagram, rest: Bytes ::
          ArrivesUdp(DispatchOf(entries, UdpOpening(port, payload) + rest), host, target, payload, rest))
  }

  ghost predicate ArrivesTcp(d: (Dispatch, Bytes), host: Option<string>, target: U16, rest: Bytes) {
    d.0.ToTcp? && Names(d.0.host, host) && d.0.port == target && d.1 == rest
  }

  ghost predicate ArrivesUdp(d: (Dispatch, Bytes), host: Option<string>, target: U16, payload: Datagram, rest: Bytes) {
    d.0.ToUdp? && Names(d.0.udpHost, host) && d.0.udpPort == target && d.0.payload == payload && d.1 == rest
  }

  /** What arrives on the server port the section's text names reaches the host
      and port its text names; and it names both. */
  ghost predicate Routed(entries: seq<ProxyEntry>, p: ReverseProxySection) {
    && (exists serverHost, port: U16, localHost, target: U16 ::
          HostAndPort(p.server, serverHost, port) && HostAndPort(p.local, localHost, target))
    && (forall serverHost, port: U16, localHost, target: U16 ::
          HostAndPort(p.server, serverHost, port) && HostAndPort(p.local, localHost, target) ==>
            LeadsTo(entries, port, localHost, target))
  }

  lemma AcceptedIsRouted(isIp: string -> bool, c: Contents, i: nat)
    requires WellFormed(isIp, c) && i < |c.reverseProxies|
    ensures AllEntries(c.reverseProxies).Some?
    ensures Routed(AllEntries(c.reverseProxies).value, c.reverseProxies[i])
  {
    var p := c.reverseProxies[i];
    AcceptedAlwaysParses(isIp, c);
    var sh0, port0, lh0, target0 := AcceptedNamesPorts(isIp, c, i);
    forall sh, port: U16, lh, target: U16 | HostAndPort(p.server, sh, port) && HostAndPort(p.local, lh, target)
      ensures LeadsTo(AllEntries(c.reverseProxies).value, port, lh, target)
    {
      SectionLeads(isIp, c, i, sh, port, lh, target);
    }
  }

  lemma SectionLeads(isIp: string -> bool, c: Contents, i: nat, sh: Option<string>, port: U16, lh: Option<string>, target: U16)
    requires WellFormed(isIp, c) && i < |c.reverseProxies|
    requires HostAndPort(c.reverseProxies[i].server, sh, port) && HostAndPort(c.reverseProxies[i].local, lh, target)
    ensures AllEntries(c.reverseProxies).Some?
    ensures LeadsTo(AllEntries(c.reverseProxies).value, port, lh, target)
  {
    AcceptedAlwaysParses(isIp, c);
    var entries := AllEntries(c.reverseProxies).value;
    forall rest: Bytes ensures ArrivesTcp(DispatchOf(entries, TcpOpening(port) + rest), lh, target, rest) {
      EndToEnd(isIp, c, i, sh, port, lh, target, [], rest);
    }
    forall payload: Datagram, rest: Bytes
      ensures ArrivesUdp(DispatchOf(entries, UdpOpening(port, payload) + rest), lh, target, payload, rest)
    {
      EndToEnd(isIp, c, i, sh, port, lh, target, payload, rest);
    }
  }

  /** What both sides must bring besides an accepted configuration. */
  ghost predicate Passes(w: World, client: ClientAuth, clientNow: nat, auth: ServerAuth, serverNow: nat,
                         entries: seq<ProxyEntry>)
  {
    && entries != []
    && |ToBytes(Hello(w, client, clientNow, entries))| <= 16 * 1024 * 1024
    && TokenMatches(auth, if client.token.Some? then client.token.value else [])
    && PasswordMatches(w, auth, ClientCode(w.mac, client, clientNow), serverNow)
  }

  /** Each section's entry, with the hosts and ports its text names. */
  ghost predicate Lists(entries: seq<ProxyEntry>, sections: seq<ReverseProxySection>) {
    && |entries| == |sections|
    && forall i :: 0 <= i < |sections| ==> EntryFor(sections[i], entries[i])
  }

  lemma ParsedLists(sections: seq<ReverseProxySection>)
    requires AllEntries(sections).Some?
    ensures Lists(AllEntries(sections).value, sections)
  {
    var entries := AllEntries(sections).value;
    forall i | 0 <= i < |sections| ensures EntryFor(sections[i], entries[i]) {
      EntryExactly(sections[i], entries[i]);
    }
  }

  /** The proxies of an acceptable configuration are parsed, announced and, exactly
      if the handshake passes, served as they are: then every section's traffic
      reaches the target its text names. */
  method ConnectAccepted(ghost isIp: string -> bool, ghost c: Contents, sections: seq<ReverseProxySection>,
                         w: World, client: ClientAuth, clientNow: nat, auth: ServerAuth, serverNow: nat,
                         sessionId: ShortText)
    returns (entered: bool, served: Option<seq<ProxyEntry>>)
    requires Acceptable(isIp, c) && sections == c.reverseProxies && serverNow < U64_LIMIT
    requires AllEntries(sections).Some? ==>
      |ToBytes(Hello(w, client, clientNow, AllEntries(sections).value))| < U32_LIMIT
    ensures AllEntries(sections).Some? && Lists(AllEntries(sections).value, sections)
    ensures entered <==> Passes(w, client, clientNow, auth, serverNow, AllEntries(sections).value)
    ensures served == if entered then AllEntries(sections) else None
    ensures served.Some? ==> forall i :: 0 <= i < |sections| ==> Routed(served.value, sections[i])
  {
    AcceptanceExactly(isIp, c);
    ValidationExact(isIp, c);
    AcceptedAlwaysParses(isIp, c);
    ParsedLists(sections);
    var entries := ParseProxyConfigs(sections);
    entered, served := Connect(w, client, clientNow, entries.value, auth, serverNow, sessionId);
    forall i | 0 <= i < |sections| ensures Routed(entries.value, sections[i]) {
      AcceptedIsRouted(isIp, c, i);
    }
  }

  /** The same from the file on: validation comes first and decides whether there
      is anything to announce. */
  method ValidateAndConnect(file: ConfigFile, isIp: string -> bool,
                            w: World, client: ClientAuth, clientNow: nat, auth: ServerAuth, serverNow: nat,
                            sessionId: ShortText)
    returns (entered: bool, served: Option<seq<ProxyEntry>>)
    requires serverNow < U64_LIMIT
    requires AllEntries(file.reverseProxies).Some? ==>
      |ToBytes(Hello(w, client, clientNow, AllEntries(file.reverseProxies).value))| < U32_LIMIT
    modifies file
    ensures var c := old(file.View());
      && (entered <==>
            && Acceptable(isIp, c) && AllEntries(c.reverseProxies).Some?
            && Passes(w, client, clientNow, auth, serverNow, AllEntries(c.reverseProxies).value))
      && served == (if entered then AllEntries(c.reverseProxies) else None)
      && (served.Some? ==>
            && Lists(served.value, c.reverseProxies)
            && forall i :: 0 <= i < |c.reverseProxies| ==> Routed(served.value, c.reverseProxies[i]))
  {
    ghost var c := file.View();
    var r := file.Validate(isIp);
    AcceptanceExactly(isIp, c);
    if r.Err? {
      return false, None;
    }
    assert file.View().reverseProxies == c.reverseProxies;
    entered, served := ConnectAccepted(isIp, c, file.reverseProxies, w, client, clientNow, auth, serverNow, sessionId);
  }
}
