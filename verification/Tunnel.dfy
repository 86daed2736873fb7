/** One tunnel stream: the header and the UDP request the server writes, and how
    the client reads them and picks the local target. */
module Tunnel {
  import opened Basics
  import opened Digits
  import opened Streams
  import opened Wire

  const TCP_TYPE: byte := 0x01
  const UDP_TYPE: byte := 0x02
  const RESERVED_TYPE: byte := 0x03

  /** [type][reserved][port, high byte][port, low byte] */
  function Header(kind: byte, port: U16): Bytes {
    [kind, 0x00, port / 0x100 % 0x100, port % 0x100]
  }

  /** What the server's 65535-byte receive buffer can hold. */
  type Datagram = b: Bytes | |b| <= U16_MAX witness []

  /** The payload length is written as u16. */
  function UdpRequest(port: U16, payload: Datagram): Bytes {
    Header(UDP_TYPE, port) + Be(|payload| % 0x1_0000, 2) + payload
  }

  datatype TunnelError = ShortHeader | NoLocalTarget | ShortLength | ShortPayload | NotImplemented | UnknownType

  datatype Dispatch =
    | ToTcp(host: Text, port: U16)
    | ToUdp(udpHost: Text, udpPort: U16, payload: Bytes)
    | Refused(error: TunnelError)

  function FirstFor(configs: seq<ProxyEntry>, port: U16): (r: Option<ProxyEntry>)
    ensures r == None <==> forall i :: 0 <= i < |configs| ==> configs[i].serverPort != port
    ensures r.Some? ==> exists i :: (0 <= i < |configs| && configs[i] == r.value && r.value.serverPort == port
                                     && forall j :: 0 <= j < i ==> configs[j].serverPort != port)
  {
    if configs == [] then None
    else if configs[0].serverPort == port then Some(configs[0])
    else FirstFor(configs[1..], port)
  }

  /** Where a stream starting with `b` goes, and what is left of it. */
  function DispatchOf(configs: seq<ProxyEntry>, b: Bytes): (Dispatch, Bytes) {
    if |b| < 4 then (Refused(ShortHeader), [])
    else
      var kind, port, rest := b[0], FromBe(b[2..4]), b[4..];
      TwoBytes(b[2..4]);
      DispatchBody(configs, kind, port, rest)
  }

  function DispatchBody(configs: seq<ProxyEntry>, kind: byte, port: U16, rest: Bytes): (Dispatch, Bytes) {
    var target := FirstFor(configs, port);
    if kind == TCP_TYPE then
      if target.None? then (Refused(NoLocalTarget), rest)
      else (ToTcp(target.value.localHost, target.value.localPort), rest)
    else if kind == UDP_TYPE then
      if target.None? then (Refused(NoLocalTarget), rest)
      else if |rest| < 2 then (Refused(ShortLength), [])
      else
        var len := FromBe(rest[..2]);
        if |rest| < 2 + len then (Refused(ShortPayload), [])
        else (ToUdp(target.value.localHost, target.value.localPort, rest[2..2 + len]), rest[2 + len..])
    else if kind == RESERVED_TYPE then (Refused(NotImplemented), rest)
    else (Refused(UnknownType), rest)
  }

  lemma TwoBytes(b: Bytes)
    requires |b| == 2
    ensures FromBe(b) < 0x1_0000
  {
    Widths();
    ValueThenDigits(b, 0x100);
  }

  method OpenTcp(port: U16, stream: ByteStream)
    modifies stream
    ensures stream.data == old(stream.data) + Header(TCP_TYPE, port)
  {
    stream.WriteAll([TCP_TYPE, 0x00, port / 0x100 % 0x100, port % 0x100]);
  }

  method SendUdp(port: U16, payload: Datagram, stream: ByteStream)
    modifies stream
    ensures stream.data == old(stream.data) + UdpRequest(port, payload)
  {
    stream.WriteAll([UDP_TYPE, 0x00, port / 0x100 % 0x100, port % 0x100]);
    stream.WriteAll(Be(|payload| % 0x1_0000, 2));
    stream.WriteAll(payload);
    assert stream.data == old(stream.data) + UdpRequest(port, payload);
  }

  method FindTarget(configs: seq<ProxyEntry>, port: U16) returns (r: Option<ProxyEntry>)
    ensures r == FirstFor(configs, port)
  {
    var i := 0;
    while i < |configs|
      invariant 0 <= i <= |configs|
      invariant FirstFor(configs, port) == FirstFor(configs[i..], port)
    {
      if configs[i].serverPort == port {
        return Some(configs[i]);
      }
      i := i + 1;
    }
    return None;
  }

  /** The client's reading of one stream, up to the hand-over to the target. */
  method HandleTunnelStream(stream: ByteStream, configs: seq<ProxyEntry>) returns (d: Dispatch)
    modifies stream
    ensures (d, stream.data) == DispatchOf(configs, old(stream.data))
  {
    ghost var wire := stream.data;
    var header := stream.ReadExact(4);
    if header.None? {
      return Refused(ShortHeader);
    }
    TwoBytes(header.value[2..4]);
    assert header.value[2..4] == wire[2..4];
    var kind, port := header.value[0], FromBe(header.value[2..4]);
    ghost var rest := stream.data;
    if kind == UDP_TYPE {
      var target := FindTarget(configs, port);
      if target.None? {
        return Refused(NoLocalTarget);
      }
      var lenBytes := stream.ReadExact(2);
      if lenBytes.None? {
        return Refused(ShortLength);
      }
      var len := FromBe(lenBytes.value);
      var payload := stream.ReadExact(len);
      if payload.None? {
        return Refused(ShortPayload);
      }
      assert payload.value == rest[2..2 + len] && stream.data == rest[2 + len..];
      return ToUdp(target.value.localHost, target.value.localPort, payload.value);
    }
    if kind == RESERVED_TYPE {
      return Refused(NotImplemented);
    }
    if kind != TCP_TYPE {
      return Refused(UnknownType);
    }
    var target := FindTarget(configs, port);
    if target.None? {
      return Refused(NoLocalTarget);
    }
    return ToTcp(target.value.localHost, target.value.localPort);
  }

  // Routing

  lemma HeaderReads(kind: byte, port: U16, rest: Bytes)
    ensures var b := Header(kind, port) + rest;
      |b| >= 4 && b[0] == kind && FromBe(b[2..4]) == port && b[4..] == rest
  {
    var b := Header(kind, port) + rest;
    TwoByteValue(b[2..4]);
  }

  ghost predicate DistinctPorts(configs: seq<ProxyEntry>) {
    forall i, j :: 0 <= i < j < |configs| ==> configs[i].serverPort != configs[j].serverPort
  }

  lemma {:induction false} FirstIsOnly(configs: seq<ProxyEntry>, i: nat)
    requires DistinctPorts(configs) && i < |configs|
    ensures FirstFor(configs, configs[i].serverPort) == Some(configs[i])
  {
    if i > 0 {
      FirstIsOnly(configs[1..], i - 1);
    }
  }

  lemma TcpReachesTarget(configs: seq<ProxyEntry>, i: nat, rest: Bytes)
    requires DistinctPorts(configs) && i < |configs|
    ensures DispatchOf(configs, Header(TCP_TYPE, configs[i].serverPort) + rest)
         == (ToTcp(configs[i].localHost, configs[i].localPort), rest)
  {
    FirstIsOnly(configs, i);
    TcpArrives(configs, configs[i].serverPort, rest);
  }

  lemma UdpBody(payload: Datagram, rest: Bytes)
    ensures var b := Be(|payload| % 0x1_0000, 2) + payload + rest;
      && FromBe(b[..2]) == |payload|
      && b[2..2 + |payload|] == payload && b[2 + |payload|..] == rest
  {
    var len := |payload|;
    var b := Be(len, 2) + payload + rest;
    Widths();
    FixedWidthRoundTrip(len, 2);
    assert b[..2] == Be(len, 2);
    assert b[2..] == payload + rest;
    assert b[2..2 + len] == b[2..][..len];
  }

  lemma UdpReachesTarget(configs: seq<ProxyEntry>, i: nat, payload: Datagram, rest: Bytes)
    requires DistinctPorts(configs) && i < |configs|
    ensures DispatchOf(configs, UdpRequest(configs[i].serverPort, payload) + rest)
         == (ToUdp(configs[i].localHost, configs[i].localPort, payload), rest)
  {
    FirstIsOnly(configs, i);
    UdpArrives(configs, configs[i].serverPort, payload, rest);
  }

  /** Over any configuration, the target is the first entry of the port. */
  lemma TcpArrives(configs: seq<ProxyEntry>, port: U16, rest: Bytes)
    ensures DispatchOf(configs, Header(TCP_TYPE, port) + rest) ==
      match FirstFor(configs, port)
      case Some(target) => (ToTcp(target.localHost, target.localPort), rest)
      case None => (Refused(NoLocalTarget), rest)
  {
    HeaderReads(TCP_TYPE, port, rest);
  }

  lemma UdpArrives(configs: seq<ProxyEntry>, port: U16, payload: Datagram, rest: Bytes)
    ensures DispatchOf(configs, UdpRequest(port, payload) + rest) ==
      match FirstFor(configs, port)
      case Some(target) => (ToUdp(target.localHost, target.localPort, payload), rest)
      case None => (Refused(NoLocalTarget), Be(|payload| % 0x1_0000, 2) + payload + rest)
  {
    var body := Be(|payload| % 0x1_0000, 2) + payload + rest;
    assert UdpRequest(port, payload) + rest == Header(UDP_TYPE, port) + body;
    HeaderReads(UDP_TYPE, port, body);
    UdpBody(payload, rest);
  }

  ghost predicate Announced(configs: seq<ProxyEntry>, port: int) {
    exists i :: 0 <= i < |configs| && configs[i].serverPort == port
  }

  lemma TwoByteValue(b: Bytes)
    requires |b| == 2
    ensures FromBe(b) == b[0] as int * 0x100 + b[1] as int
  {
    var s: seq<nat> := b;
    assert s[..1] == [] + [s[0]];
    FromBaseSnoc([], s[0], 0x100);
    FromBaseSnoc(s[..1], s[1], 0x100);
    assert s == s[..1] + [s[1]];
  }

  /** Which streams the client refuses, and why, byte by byte. */
  lemma RefusedExactly(configs: seq<ProxyEntry>, b: Bytes)
    ensures var d := DispatchOf(configs, b).0;
      && (d == Refused(ShortHeader) <==> |b| < 4)
      && (|b| >= 4 ==>
            var known := Announced(configs, b[2] as int * 0x100 + b[3] as int);
            && (d == Refused(NotImplemented) <==> b[0] == 0x03)
            && (d == Refused(UnknownType) <==> b[0] != 0x01 && b[0] != 0x02 && b[0] != 0x03)
            && (d == Refused(NoLocalTarget) <==> (b[0] == 0x01 || b[0] == 0x02) && !known)
            && (d == Refused(ShortLength) <==> b[0] == 0x02 && known && |b| < 6)
            && (d == Refused(ShortPayload) <==> b[0] == 0x02 && known && 6 <= |b| < 6 + b[4] as int * 0x100 + b[5] as int))
  {
    if |b| >= 4 {
      TwoBytes(b[2..4]);
      TwoByteValue(b[2..4]);
      RestRefused(configs, b[0], FromBe(b[2..4]), b[4..]);
    }
  }

  lemma RestRefused(configs: seq<ProxyEntry>, kind: byte, port: U16, rest: Bytes)
    ensures var d, known := DispatchBody(configs, kind, port, rest).0, Announced(configs, port);
      && d != Refused(ShortHeader)
      && (d == Refused(NotImplemented) <==> kind == 0x03)
      && (d == Refused(UnknownType) <==> kind != 0x01 && kind != 0x02 && kind != 0x03)
      && (d == Refused(NoLocalTarget) <==> (kind == 0x01 || kind == 0x02) && !known)
      && (d == Refused(ShortLength) <==> kind == 0x02 && known && |rest| < 2)
      && (d == Refused(ShortPayload) <==> kind == 0x02 && known && 2 <= |rest| < 2 + rest[0] as int * 0x100 + rest[1] as int)
  {
    assert FirstFor(configs, port) == None <==> !Announced(configs, port);
    if |rest| >= 2 {
      TwoByteValue(rest[..2]);
    }
  }

  /** Both ends on one stream: what the server opens for a connection and then
      forwards, as the client dispatches it. */
  method CarryTcp(configs: seq<ProxyEntry>, port: U16, forwarded: Bytes) returns (d: Dispatch, left: Bytes)
    ensures left == forwarded
    ensures match FirstFor(configs, port)
      case Some(target) => d == ToTcp(target.localHost, target.localPort)
      case None => d == Refused(NoLocalTarget)
  {
    var stream := new ByteStream();
    OpenTcp(port, stream);
    stream.WriteAll(forwarded);
    assert stream.data == Header(TCP_TYPE, port) + forwarded;
    TcpArrives(configs, port, forwarded);
    d := HandleTunnelStream(stream, configs);
    left := stream.data;
  }

  /** The same for a datagram. */
  method CarryUdp(configs: seq<ProxyEntry>, port: U16, payload: Datagram) returns (d: Dispatch)
    ensures match FirstFor(configs, port)
      case Some(target) => d == ToUdp(target.localHost, target.localPort, payload)
      case None => d == Refused(NoLocalTarget)
  {
    var stream := new ByteStream();
    SendUdp(port, payload, stream);
    assert stream.data == UdpRequest(port, payload) + [];
    UdpArrives(configs, port, payload, []);
    d := HandleTunnelStream(stream, configs);
  }
}

/** From a validated configuration to the local target. */
module Routing {
  import opened Basics
  import opened Unicode
  import opened Utf8
  import opened Wire
  import opened ConfigText
  import opened Digits
  import opened Config
  import opened TextMeaning
  import opened ConfigMeaning
  import opened Tunnel

  function TextOf(s: string): Text {
    StringsAreText(s);
    StringBytes(s)
  }

  function ServerHost(p: ReverseProxySection): Option<string> {
    if ':' in p.server then Some(Host(p.server, ':')) else None
  }

  function LocalHost(p: ReverseProxySection): string {
    if ':' in p.local then Host(p.local, ':') else "localhost"
  }

  /** One section as the client announces it. */
  function EntryOf(p: ReverseProxySection): Option<ProxyEntry> {
    match (LastPort(p.server), LastPort(p.local))
    case (Some(serverPort), Some(localPort)) =>
      var host := match ServerHost(p) { case Some(h) => Some(TextOf(h)) case None => None };
      Some(ProxyEntry(serverPort, host, TextOf(LocalHost(p)), localPort))
    case _ => None
  }

  /** All sections, or nothing if one does not parse. */
  function AllEntries(sections: seq<ReverseProxySection>): (r: Option<seq<ProxyEntry>>)
    ensures r.Some? <==> forall i :: 0 <= i < |sections| ==> EntryOf(sections[i]).Some?
    ensures r.Some? ==> |r.value| == |sections| && forall i :: 0 <= i < |sections| ==> EntryOf(sections[i]) == Some(r.value[i])
  {
    if forall i :: 0 <= i < |sections| ==> EntryOf(sections[i]).Some?
    then Some(seq(|sections|, i requires 0 <= i < |sections| && EntryOf(sections[i]).Some? => EntryOf(sections[i]).value))
    else None
  }

  method ParseProxyConfigs(sections: seq<ReverseProxySection>) returns (r: Option<seq<ProxyEntry>>)
    ensures r == AllEntries(sections)
  {
    var entries: seq<ProxyEntry> := [];
    for i := 0 to |sections|
      invariant |entries| == i
      invariant forall k :: 0 <= k < i ==> EntryOf(sections[k]) == Some(entries[k])
    {
      var entry := EntryOf(sections[i]);
      if entry.None? {
        return None;
      }
      entries := entries + [entry.value];
    }
    assert AllEntries(sections).value == entries;
    return Some(entries);
  }

  ghost predicate Announces(c: Contents, entries: seq<ProxyEntry>) {
    |entries| == |c.reverseProxies|
    && forall i :: 0 <= i < |entries| ==> EntryOf(c.reverseProxies[i]) == Some(entries[i])
  }

  lemma ValidatedPortsDistinct(isIp: string -> bool, c: Contents, entries: seq<ProxyEntry>)
    requires WellFormed(isIp, c) && Announces(c, entries)
    ensures DistinctPorts(entries)
  {
    var fs := AllReverseFacts(isIp, c.reverseProxies);
    forall i, j | 0 <= i < j < |entries| ensures entries[i].serverPort != entries[j].serverPort {
      PortOfEntry(c.reverseProxies[i], isIp);
      PortOfEntry(c.reverseProxies[j], isIp);
      assert fs[i].own != fs[j].own;
    }
  }

  lemma PortOfEntry(p: ReverseProxySection, isIp: string -> bool)
    requires EntryOf(p).Some?
    ensures ReverseFacts(isIp, p).own == Some(EntryOf(p).value.serverPort)
    ensures ReverseFacts(isIp, p).target == Some(EntryOf(p).value.localPort)
  {}

  lemma ValidatedSectionParses(isIp: string -> bool, c: Contents, i: nat)
    requires WellFormed(isIp, c) && i < |c.reverseProxies|
    ensures EntryOf(c.reverseProxies[i]).Some?
  {
    var fs := AllReverseFacts(isIp, c.reverseProxies);
    assert Usable(fs[i].own) && Usable(fs[i].target);
  }

  /** The client never fails to parse an accepted configuration. */
  lemma AcceptedAlwaysParses(isIp: string -> bool, c: Contents)
    requires WellFormed(isIp, c)
    ensures AllEntries(c.reverseProxies).Some? && Announces(c, AllEntries(c.reverseProxies).value)
  {
    forall i | 0 <= i < |c.reverseProxies| ensures EntryOf(c.reverseProxies[i]).Some? {
      ValidatedSectionParses(isIp, c, i);
    }
  }

  // Over the text of a section

  /** An entry and the hosts its section names, if it names any. */
  ghost predicate SectionEntry(p: ReverseProxySection, e: ProxyEntry, serverHost: Option<string>, localHost: Option<string>) {
    && HostAndPort(p.server, serverHost, e.serverPort)
    && HostAndPort(p.local, localHost, e.localPort)
    && (match serverHost
        case Some(h) => e.serverHost.Some? && e.serverHost.value == StringBytes(h)
        case None => e.serverHost.None?)
    && (match localHost
        case Some(h) => e.localHost == StringBytes(h)
        case None => e.localHost == StringBytes("localhost"))
  }

  ghost predicate EntryFor(p: ReverseProxySection, e: ProxyEntry) {
    exists sh, lh :: SectionEntry(p, e, sh, lh)
  }

  /** An entry carries exactly the hosts and ports of its section. */
  lemma EntryExactly(p: ReverseProxySection, e: ProxyEntry)
    ensures EntryOf(p) == Some(e) <==> EntryFor(p, e)
  {
    LastPortExactly(p.server, ServerHost(p), e.serverPort);
    LastPortExactly(p.local, if ':' in p.local then Some(Host(p.local, ':')) else None, e.localPort);
    if EntryOf(p) == Some(e) {
      assert SectionEntry(p, e, ServerHost(p), if ':' in p.local then Some(Host(p.local, ':')) else None);
    }
    if sh: Option<string>, lh: Option<string> :| SectionEntry(p, e, sh, lh) {
      LastPortExactly(p.server, sh, e.serverPort);
      LastPortExactly(p.local, lh, e.localPort);
    }
  }

  /** The bytes that open a stream for a TCP connection on a port. */
  function TcpOpening(port: U16): Bytes {
    [0x01, 0x00, port / 0x100, port % 0x100]
  }

  /** The bytes of a datagram on a port. */
  function UdpOpening(port: U16, payload: Datagram): Bytes {
    [0x02, 0x00, port / 0x100, port % 0x100, |payload| / 0x100, |payload| % 0x100] + payload
  }

  lemma TwoBytesOf(n: U16)
    ensures Be(n, 2) == [n / 0x100, n % 0x100]
  {
    Widths();
    FixedWidthRoundTrip(n, 2);
    TwoByteValue(Be(n, 2));
  }

  lemma OpeningsOnTheWire(port: U16, payload: Datagram)
    ensures Header(TCP_TYPE, port) == TcpOpening(port)
    ensures UdpRequest(port, payload) == UdpOpening(port, payload)
  {
    TwoBytesOf(|payload|);
    assert Header(UDP_TYPE, port) + [|payload| / 0x100, |payload| % 0x100]
        == [0x02, 0x00, port / 0x100, port % 0x100, |payload| / 0x100, |payload| % 0x100];
  }

  /** A dispatch goes to the host named, or to this machine if none is. */
  ghost predicate Names(text: Bytes, host: Option<string>) {
    text == StringBytes(if host.Some? then host.value else "localhost")
  }

  /** For every accepted configuration: it parses, and what arrives on the server
      port a section's text names reaches exactly the host and port its text
      names, datagrams whole. */
  lemma EndToEnd(isIp: string -> bool, c: Contents, i: nat, serverHost: Option<string>, port: U16,
                 localHost: Option<string>, target: U16, payload: Datagram, rest: Bytes)
    requires WellFormed(isIp, c) && i < |c.reverseProxies|
    requires HostAndPort(c.reverseProxies[i].server, serverHost, port)
    requires HostAndPort(c.reverseProxies[i].local, localHost, target)
    ensures AllEntries(c.reverseProxies).Some?
    ensures var entries := AllEntries(c.reverseProxies).value;
      var tcp, udp := DispatchOf(entries, TcpOpening(port) + rest), DispatchOf(entries, UdpOpening(port, payload) + rest);
      && tcp.1 == udp.1 == rest
      && tcp.0.ToTcp? && Names(tcp.0.host, localHost) && tcp.0.port == target
      && udp.0.ToUdp? && Names(udp.0.udpHost, localHost) && udp.0.udpPort == target && udp.0.payload == payload
  {
    AcceptedAlwaysParses(isIp, c);
    var p, entries := c.reverseProxies[i], AllEntries(c.reverseProxies).value;
    var e := entries[i];
    LastPortExactly(p.server, serverHost, port);
    LastPortExactly(p.local, localHost, target);
    EntryFields(p, e);
    ValidatedPortsDistinct(isIp, c, entries);
    OpeningsOnTheWire(port, payload);
    TcpReachesTarget(entries, i, rest);
    UdpReachesTarget(entries, i, payload, rest);
  }

  /** And every section of an accepted configuration names such ports. */
  lemma AcceptedNamesPorts(isIp: string -> bool, c: Contents, i: nat)
    returns (serverHost: Option<string>, port: U16, localHost: Option<string>, target: U16)
    requires WellFormed(isIp, c) && i < |c.reverseProxies|
    ensures HostAndPort(c.reverseProxies[i].server, serverHost, port) && port != 0
    ensures HostAndPort(c.reverseProxies[i].local, localHost, target) && target != 0
  {
    var p := c.reverseProxies[i];
    var f := AllReverseFacts(isIp, c.reverseProxies)[i];
    assert Usable(f.own) && Usable(f.target);
    port, target := f.own.value, f.target.value;
    serverHost := ServerHost(p);
    localHost := if ':' in p.local then Some(Host(p.local, ':')) else None;
    LastPortExactly(p.server, serverHost, port);
    LastPortExactly(p.local, localHost, target);
  }

  lemma EntryFields(p: ReverseProxySection, e: ProxyEntry)
    requires EntryOf(p) == Some(e)
    ensures LastPort(p.server) == Some(e.serverPort) && LastPort(p.local) == Some(e.localPort)
    ensures Names(e.localHost, if ':' in p.local then Some(Host(p.local, ':')) else None)
  {}
}
