/** The control-message codec. The byte layout is the default one of bincode
    1.3: little-endian fixed-width integers, u32 variant tags, u64 lengths,
    one-byte option tags, trailing bytes ignored. */
module Wire {
  import opened Basics
  import opened Digits

  type U16 = n: nat | n < 0x1_0000
  type U32 = n: nat | n < U32_LIMIT

  // Text: well-formed UTF-8

  predicate Continuation(b: byte) {
    0x80 <= b < 0xC0
  }

  /** Length of the well-formed sequence b starts with, 0 when there is none. */
  function Utf8Step(b: Bytes): (k: nat)
    ensures k <= |b|
  {
    if b == [] then 0
    else if b[0] < 0x80 then 1
    else if |b| < 2 || b[0] < 0xC2 then 0
    else if b[0] < 0xE0 then (if Continuation(b[1]) then 2 else 0)
    else if |b| < 3 || !Continuation(b[2]) then 0
    else if b[0] == 0xE0 then (if 0xA0 <= b[1] < 0xC0 then 3 else 0)
    else if b[0] == 0xED then (if 0x80 <= b[1] < 0xA0 then 3 else 0)
    else if b[0] < 0xF0 then (if Continuation(b[1]) then 3 else 0)
    else if |b| < 4 || !Continuation(b[3]) then 0
    else if b[0] == 0xF0 then (if 0x90 <= b[1] < 0xC0 then 4 else 0)
    else if b[0] < 0xF4 then (if Continuation(b[1]) then 4 else 0)
    else if b[0] == 0xF4 then (if 0x80 <= b[1] < 0x90 then 4 else 0)
    else 0
  }

  predicate ValidUtf8(b: Bytes) {
    b == [] || (Utf8Step(b) > 0 && ValidUtf8(b[Utf8Step(b)..]))
  }

  type Text = b: Bytes | ValidUtf8(b) witness []

  // Messages

  datatype ProxyEntry = ProxyEntry(serverPort: U16, serverHost: Option<Text>, localHost: Text, localPort: U16)

  datatype HandshakeStatus =
    | Accepted | VersionMismatch | ConfigError | PortAllocationFailed
    | InvalidToken | TokenExpired | AccessDenied | InvalidConfigHash

  datatype Message =
    | ClientHello(version: byte, token: Text, totpCode: Option<U32>, proxies: seq<ProxyEntry>, configHash: Text)
    | ServerHello(helloVersion: byte, status: HandshakeStatus, message: Text, allowedPorts: seq<U16>,
                  sessionId: Option<Text>)
    | Ping
    | Pong

  // Writing

  function PutText(t: Text): Bytes {
    Le(|t|, 8) + t
  }

  function PutOption<T>(put: T -> Bytes, o: Option<T>): Bytes {
    match o
    case None => [0]
    case Some(x) => [1] + put(x)
  }

  function PutAll<T>(put: T -> Bytes, s: seq<T>): Bytes {
    if s == [] then [] else put(s[0]) + PutAll(put, s[1..])
  }

  function PutSeq<T>(put: T -> Bytes, s: seq<T>): Bytes {
    Le(|s|, 8) + PutAll(put, s)
  }

  function PutU16(n: U16): Bytes { Le(n, 2) }
  function PutU32(n: U32): Bytes { Le(n, 4) }

  function PutEntry(e: ProxyEntry): Bytes {
    PutU16(e.serverPort) + (PutOption(PutText, e.serverHost) + (PutText(e.localHost) + PutU16(e.localPort)))
  }

  function StatusTag(s: HandshakeStatus): (t: nat)
    ensures t < 8
  {
    match s
    case Accepted => 0
    case VersionMismatch => 1
    case ConfigError => 2
    case PortAllocationFailed => 3
    case InvalidToken => 4
    case TokenExpired => 5
    case AccessDenied => 6
    case InvalidConfigHash => 7
  }

  function StatusOf(t: nat): Option<HandshakeStatus> {
    match t
    case 0 => Some(Accepted)
    case 1 => Some(VersionMismatch)
    case 2 => Some(ConfigError)
    case 3 => Some(PortAllocationFailed)
    case 4 => Some(InvalidToken)
    case 5 => Some(TokenExpired)
    case 6 => Some(AccessDenied)
    case 7 => Some(InvalidConfigHash)
    case _ => None
  }

  function PutStatus(s: HandshakeStatus): Bytes {
    Le(StatusTag(s), 4)
  }

  function PutHello(m: Message): Bytes
    requires m.ClientHello?
  {
    [m.version] + (PutText(m.token) + (PutOption(PutU32, m.totpCode)
      + (PutSeq(PutEntry, m.proxies) + PutText(m.configHash))))
  }

  function PutReply(m: Message): Bytes
    requires m.ServerHello?
  {
    [m.helloVersion] + (PutStatus(m.status) + (PutText(m.message)
      + (PutSeq(PutU16, m.allowedPorts) + PutOption(PutText, m.sessionId))))
  }

  function Tag(m: Message): (t: nat)
    ensures t < 4
  {
    match m
    case ClientHello(_, _, _, _, _) => 0
    case ServerHello(_, _, _, _, _) => 1
    case Ping => 2
    case Pong => 3
  }

  function Body(m: Message): Bytes {
    match m
    case ClientHello(_, _, _, _, _) => PutHello(m)
    case ServerHello(_, _, _, _, _) => PutReply(m)
    case _ => []
  }

  function ToBytes(m: Message): Bytes {
    Le(Tag(m), 4) + Body(m)
  }

  // Reading

  datatype Parsed<+T> = Fail | Done(value: T, rest: Bytes) {
    predicate IsFailure() { Fail? }
    function PropagateFailure<U>(): Parsed<U> requires Fail? { Fail }
    function Extract(): (T, Bytes) requires Done? { (value, rest) }
  }

  function GetUint(b: Bytes, width: nat): Parsed<nat> {
    if |b| < width then Fail else Done(FromLe(b[..width]), b[width..])
  }

  function GetByte(b: Bytes): Parsed<byte> {
    if b == [] then Fail else Done(b[0], b[1..])
  }

  function GetU16(b: Bytes): Parsed<U16> {
    var (n, rest) :- GetUint(b, 2);
    if n < 0x1_0000 then Done(n, rest) else Fail
  }

  function GetU32(b: Bytes): Parsed<U32> {
    var (n, rest) :- GetUint(b, 4);
    if n < U32_LIMIT then Done(n, rest) else Fail
  }

  function GetText(b: Bytes): Parsed<Text> {
    var (n, rest) :- GetUint(b, 8);
    if |rest| < n || !ValidUtf8(rest[..n]) then Fail else Done(rest[..n], rest[n..])
  }

  function GetOption<T>(get: Bytes -> Parsed<T>, b: Bytes): Parsed<Option<T>> {
    var (tag, rest) :- GetByte(b);
    if tag == 0 then Done(None, rest)
    else if tag == 1 then var (x, rest2) :- get(rest); Done(Some(x), rest2)
    else Fail
  }

  function GetAll<T>(get: Bytes -> Parsed<T>, n: nat, b: Bytes): Parsed<seq<T>> {
    if n == 0 then Done([], b)
    else
      var (x, rest) :- get(b);
      var (xs, rest2) :- GetAll(get, n - 1, rest);
      Done([x] + xs, rest2)
  }

  function GetSeq<T>(get: Bytes -> Parsed<T>, b: Bytes): Parsed<seq<T>> {
    var (n, rest) :- GetUint(b, 8);
    GetAll(get, n, rest)
  }

  /** One field after the other. */
  function Both<A, B>(first: Bytes -> Parsed<A>, second: Bytes -> Parsed<B>): Bytes -> Parsed<(A, B)> {
    b =>
      var (x, rest) :- first(b);
      var (y, rest2) :- second(rest);
      Done((x, y), rest2)
  }

  function GetTextOption(b: Bytes): Parsed<Option<Text>> { GetOption(GetText, b) }
  function GetU32Option(b: Bytes): Parsed<Option<U32>> { GetOption(GetU32, b) }
  function GetPorts(b: Bytes): Parsed<seq<U16>> { GetSeq(GetU16, b) }
  function GetEntries(b: Bytes): Parsed<seq<ProxyEntry>> { GetSeq(GetEntry, b) }

  function GetEntry(b: Bytes): Parsed<ProxyEntry> {
    var (f, rest) :- Both(GetU16, Both(GetTextOption, Both(GetText, GetU16)))(b);
    Done(ProxyEntry(f.0, f.1.0, f.1.1.0, f.1.1.1), rest)
  }

  function GetStatus(b: Bytes): Parsed<HandshakeStatus> {
    var (tag, rest) :- GetUint(b, 4);
    match StatusOf(tag)
    case Some(s) => Done(s, rest)
    case None => Fail
  }

  function GetHello(b: Bytes): Parsed<Message> {
    var (f, rest) :- Both(GetByte, Both(GetText, Both(GetU32Option, Both(GetEntries, GetText))))(b);
    Done(ClientHello(f.0, f.1.0, f.1.1.0, f.1.1.1.0, f.1.1.1.1), rest)
  }

  function GetReply(b: Bytes): Parsed<Message> {
    var (f, rest) :- Both(GetByte, Both(GetStatus, Both(GetText, Both(GetPorts, GetTextOption))))(b);
    Done(ServerHello(f.0, f.1.0, f.1.1.0, f.1.1.1.0, f.1.1.1.1), rest)
  }

  function GetBody(tag: nat, b: Bytes): Parsed<Message> {
    if tag == 0 then GetHello(b)
    else if tag == 1 then GetReply(b)
    else if tag == 2 then Done(Ping, b)
    else if tag == 3 then Done(Pong, b)
    else Fail
  }

  function GetMessage(b: Bytes): Parsed<Message> {
    var (tag, body) :- GetUint(b, 4);
    GetBody(tag, body)
  }

  function FromBytes(b: Bytes): Option<Message> {
    match GetMessage(b)
    case Done(m, _) => Some(m)
    case Fail => None
  }

  // Reading back what was written

  /** `get` reads `x` off `bytes` and leaves whatever follows. */
  ghost predicate Reads<T(!new)>(get: Bytes -> Parsed<T>, bytes: Bytes, x: T) {
    forall rest: Bytes :: get(bytes + rest) == Done(x, rest)
  }

  lemma UintReads(n: nat, width: nat, rest: Bytes)
    requires n < Pow(0x100, width)
    ensures GetUint(Le(n, width) + rest, width) == Done(n, rest)
  {
    FixedWidthRoundTrip(n, width);
    var b := Le(n, width) + rest;
    assert b[..width] == Le(n, width) && b[width..] == rest;
  }

  lemma U16Reads(n: U16)
    ensures Reads(GetU16, PutU16(n), n)
  {
    Widths();
    forall rest: Bytes ensures GetU16(PutU16(n) + rest) == Done(n, rest) { UintReads(n, 2, rest); }
  }

  lemma U32Reads(n: U32)
    ensures Reads(GetU32, PutU32(n), n)
  {
    Widths();
    forall rest: Bytes ensures GetU32(PutU32(n) + rest) == Done(n, rest) { UintReads(n, 4, rest); }
  }

  lemma StatusReads(s: HandshakeStatus)
    ensures Reads(GetStatus, PutStatus(s), s)
  {
    Widths();
    forall rest: Bytes ensures GetStatus(PutStatus(s) + rest) == Done(s, rest) { UintReads(StatusTag(s), 4, rest); }
  }

  lemma TextReads(t: Text)
    requires |t| < U64_LIMIT
    ensures Reads(GetText, PutText(t), t)
  {
    Widths();
    forall rest: Bytes ensures GetText(PutText(t) + rest) == Done(t, rest) {
      assert PutText(t) + rest == Le(|t|, 8) + (t + rest);
      UintReads(|t|, 8, t + rest);
      assert (t + rest)[..|t|] == t && (t + rest)[|t|..] == rest;
    }
  }

  lemma BothReads<A(!new), B(!new)>(first: Bytes -> Parsed<A>, second: Bytes -> Parsed<B>, p: Bytes, q: Bytes, x: A, y: B)
    requires Reads(first, p, x) && Reads(second, q, y)
    ensures Reads(Both(first, second), p + q, (x, y))
  {
    forall rest: Bytes ensures Both(first, second)((p + q) + rest) == Done((x, y), rest) {
      Assoc(p, q, rest);
      assert first(p + (q + rest)) == Done(x, q + rest);
      assert second(q + rest) == Done(y, rest);
    }
  }

  lemma ByteReads(x: byte)
    ensures Reads(GetByte, [x], x)
  {
    forall rest: Bytes ensures GetByte([x] + rest) == Done(x, rest) { assert ([x] + rest)[1..] == rest; }
  }

  lemma OptionReads<T(!new)>(put: T -> Bytes, get: Bytes -> Parsed<T>, o: Option<T>, rest: Bytes)
    requires o.Some? ==> Reads(get, put(o.value), o.value)
    ensures GetOption(get, PutOption(put, o) + rest) == Done(o, rest)
  {
    var bytes := PutOption(put, o);
    assert (bytes + rest)[1..] == bytes[1..] + rest;
    match o
    case None => assert bytes[1..] + rest == rest;
    case Some(x) => assert bytes[1..] == put(x);
  }

  lemma TextOptionReads(o: Option<Text>)
    requires o.Some? ==> |o.value| < U64_LIMIT
    ensures Reads(GetTextOption, PutOption(PutText, o), o)
  {
    if o.Some? { TextReads(o.value); }
    forall rest: Bytes ensures GetTextOption(PutOption(PutText, o) + rest) == Done(o, rest) {
      OptionReads(PutText, GetText, o, rest);
    }
  }

  lemma U32OptionReads(o: Option<U32>)
    ensures Reads(GetU32Option, PutOption(PutU32, o), o)
  {
    if o.Some? { U32Reads(o.value); }
    forall rest: Bytes ensures GetU32Option(PutOption(PutU32, o) + rest) == Done(o, rest) {
      OptionReads(PutU32, GetU32, o, rest);
    }
  }

  lemma {:induction false} AllReads<T(!new)>(put: T -> Bytes, get: Bytes -> Parsed<T>, s: seq<T>, rest: Bytes)
    requires forall i :: 0 <= i < |s| ==> Reads(get, put(s[i]), s[i])
    ensures GetAll(get, |s|, PutAll(put, s) + rest) == Done(s, rest)
  {
    if s == [] {
      assert PutAll(put, s) + rest == rest;
    } else {
      AllReads(put, get, s[1..], rest);
      assert PutAll(put, s) + rest == put(s[0]) + (PutAll(put, s[1..]) + rest);
      assert Reads(get, put(s[0]), s[0]);
      assert s == [s[0]] + s[1..];
    }
  }

  lemma SeqReads<T(!new)>(put: T -> Bytes, get: Bytes -> Parsed<T>, s: seq<T>, rest: Bytes)
    requires |s| < U64_LIMIT
    requires forall i :: 0 <= i < |s| ==> Reads(get, put(s[i]), s[i])
    ensures GetSeq(get, PutSeq(put, s) + rest) == Done(s, rest)
  {
    Widths();
    assert PutSeq(put, s) + rest == Le(|s|, 8) + (PutAll(put, s) + rest);
    UintReads(|s|, 8, PutAll(put, s) + rest);
    AllReads(put, get, s, rest);
  }

  lemma EntryReads(e: ProxyEntry)
    requires |PutEntry(e)| < U64_LIMIT
    ensures Reads(GetEntry, PutEntry(e), e)
  {
    U16Reads(e.serverPort);
    TextOptionReads(e.serverHost);
    TextReads(e.localHost);
    U16Reads(e.localPort);
    var p1, p2, p3, p4 := PutU16(e.serverPort), PutOption(PutText, e.serverHost), PutText(e.localHost), PutU16(e.localPort);
    BothReads(GetText, GetU16, p3, p4, e.localHost, e.localPort);
    var g := Both(GetText, GetU16);
    BothReads(GetTextOption, g, p2, p3 + p4, e.serverHost, (e.localHost, e.localPort));
    BothReads(GetU16, Both(GetTextOption, g), p1, p2 + (p3 + p4), e.serverPort, (e.serverHost, (e.localHost, e.localPort)));
  }

  /** Every element takes at least `least` bytes. */
  lemma {:induction false} PutAllLength<T>(put: T -> Bytes, s: seq<T>, least: nat)
    requires forall i :: 0 <= i < |s| ==> |put(s[i])| >= least
    ensures |PutAll(put, s)| >= |s| * least
    ensures forall i :: 0 <= i < |s| ==> |put(s[i])| <= |PutAll(put, s)|
  {
    if s != [] {
      PutAllLength(put, s[1..], least);
      assert |s| * least == |s[1..]| * least + least;
      assert forall i :: 0 < i < |s| ==> s[i] == s[1..][i - 1];
    }
  }

  const LEAST_ENTRY: nat := 13

  lemma Assoc(a: Bytes, b: Bytes, c: Bytes)
    ensures (a + b) + c == a + (b + c)
  {}

  lemma EntriesRead(proxies: seq<ProxyEntry>)
    requires |PutSeq(PutEntry, proxies)| < U64_LIMIT
    ensures Reads(GetEntries, PutSeq(PutEntry, proxies), proxies)
  {
    PutAllLength(PutEntry, proxies, LEAST_ENTRY);
    forall i | 0 <= i < |proxies| ensures Reads(GetEntry, PutEntry(proxies[i]), proxies[i]) {
      EntryReads(proxies[i]);
    }
    forall rest: Bytes ensures GetEntries(PutSeq(PutEntry, proxies) + rest) == Done(proxies, rest) {
      SeqReads(PutEntry, GetEntry, proxies, rest);
    }
  }

  lemma PortsRead(ports: seq<U16>)
    requires |PutSeq(PutU16, ports)| < U64_LIMIT
    ensures Reads(GetPorts, PutSeq(PutU16, ports), ports)
  {
    PutAllLength(PutU16, ports, 2);
    forall i | 0 <= i < |ports| ensures Reads(GetU16, PutU16(ports[i]), ports[i]) {
      U16Reads(ports[i]);
    }
    forall rest: Bytes ensures GetPorts(PutSeq(PutU16, ports) + rest) == Done(ports, rest) {
      SeqReads(PutU16, GetU16, ports, rest);
    }
  }

  /** Five fields in a row. */
  lemma FiveRead<A(!new), B(!new), C(!new), D(!new), E(!new)>(
    ga: Bytes -> Parsed<A>, gb: Bytes -> Parsed<B>, gc: Bytes -> Parsed<C>, gd: Bytes -> Parsed<D>, ge: Bytes -> Parsed<E>,
    pa: Bytes, pb: Bytes, pc: Bytes, pd: Bytes, pe: Bytes, a: A, b: B, c: C, d: D, e: E)
    requires Reads(ga, pa, a) && Reads(gb, pb, b) && Reads(gc, pc, c) && Reads(gd, pd, d) && Reads(ge, pe, e)
    ensures Reads(Both(ga, Both(gb, Both(gc, Both(gd, ge)))), pa + (pb + (pc + (pd + pe))), (a, (b, (c, (d, e)))))
  {
    BothReads(gd, ge, pd, pe, d, e);
    BothReads(gc, Both(gd, ge), pc, pd + pe, c, (d, e));
    BothReads(gb, Both(gc, Both(gd, ge)), pb, pc + (pd + pe), b, (c, (d, e)));
    BothReads(ga, Both(gb, Both(gc, Both(gd, ge))), pa, pb + (pc + (pd + pe)), a, (b, (c, (d, e))));
  }

  lemma HelloReads(m: Message)
    requires m.ClientHello? && |PutHello(m)| < U64_LIMIT
    ensures Reads(GetHello, PutHello(m), m)
  {
    ByteReads(m.version);
    TextReads(m.token);
    U32OptionReads(m.totpCode);
    EntriesRead(m.proxies);
    TextReads(m.configHash);
    FiveRead(GetByte, GetText, GetU32Option, GetEntries, GetText,
             [m.version], PutText(m.token), PutOption(PutU32, m.totpCode), PutSeq(PutEntry, m.proxies), PutText(m.configHash),
             m.version, m.token, m.totpCode, m.proxies, m.configHash);
  }

  lemma ReplyReads(m: Message)
    requires m.ServerHello? && |PutReply(m)| < U64_LIMIT
    ensures Reads(GetReply, PutReply(m), m)
  {
    ByteReads(m.helloVersion);
    StatusReads(m.status);
    TextReads(m.message);
    PortsRead(m.allowedPorts);
    TextOptionReads(m.sessionId);
    FiveRead(GetByte, GetStatus, GetText, GetPorts, GetTextOption,
             [m.helloVersion], PutStatus(m.status), PutText(m.message), PutSeq(PutU16, m.allowedPorts), PutOption(PutText, m.sessionId),
             m.helloVersion, m.status, m.message, m.allowedPorts, m.sessionId);
  }

  lemma BodyReads(m: Message, rest: Bytes)
    requires |Body(m)| < U64_LIMIT
    ensures GetBody(Tag(m), Body(m) + rest) == Done(m, rest)
  {
    match m
    case ClientHello(_, _, _, _, _) => HelloReads(m);
    case ServerHello(_, _, _, _, _) => ReplyReads(m);
    case _ => assert [] + rest == rest;
  }

  /** Deserialising what was serialised, with anything behind it. */
  lemma MessageReads(m: Message, rest: Bytes)
    requires |ToBytes(m)| < U64_LIMIT
    ensures GetMessage(ToBytes(m) + rest) == Done(m, rest)
  {
    Widths();
    Assoc(Le(Tag(m), 4), Body(m), rest);
    UintReads(Tag(m), 4, Body(m) + rest);
    BodyReads(m, rest);
  }

  // The layout, byte by byte

  lemma OneCharText(c: byte)
    requires c < 0x80
    ensures ValidUtf8([c]) && PutText([c]) == [1, 0, 0, 0, 0, 0, 0, 0, c]
  {
    assert [c][1..] == [];
    SmallLittleEndian(1, 8);
  }

  lemma EntryLayout(port: U16, host: byte, localHost: byte, localPort: U16)
    requires host < 0x80 && localHost < 0x80
    ensures ValidUtf8([host]) && ValidUtf8([localHost])
    ensures PutSeq(PutEntry, [ProxyEntry(port, Some([host]), [localHost], localPort)]) ==
      [1, 0, 0, 0, 0, 0, 0, 0]
      + ([port % 0x100, port / 0x100] + ([1] + [1, 0, 0, 0, 0, 0, 0, 0, host]
      + ([1, 0, 0, 0, 0, 0, 0, 0, localHost] + [localPort % 0x100, localPort / 0x100])))
  {
    OneCharText(host);
    OneCharText(localHost);
    SmallLittleEndian(port, 2);
    SmallLittleEndian(localPort, 2);
    SmallLittleEndian(1, 8);
    var e := ProxyEntry(port, Some([host]), [localHost], localPort);
    assert [e][1..] == [];
    assert PutAll(PutEntry, [e]) == PutEntry(e) + [] == PutEntry(e);
  }

  lemma PasswordLayout(code: U32)
    requires code < 0x1_0000
    ensures PutOption(PutU32, Some(code)) == [1] + [code % 0x100, code / 0x100, 0, 0]
    ensures PutOption(PutU32, None) == [0]
  {
    SmallLittleEndian(code, 4);
  }

  /** A hello: variant, version, token, password, proxies, hash. */
  lemma HelloLayout(m: Message)
    requires m.ClientHello?
    ensures ToBytes(m) ==
      [0, 0, 0, 0] + ([m.version] + (PutText(m.token) + (PutOption(PutU32, m.totpCode)
      + (PutSeq(PutEntry, m.proxies) + PutText(m.configHash)))))
  {
    SmallLittleEndian(0, 4);
  }

  /** The number of a status on the wire. */
  ghost predicate HasCode(status: HandshakeStatus, code: byte) {
    match status
    case Accepted => code == 0
    case VersionMismatch => code == 1
    case ConfigError => code == 2
    case PortAllocationFailed => code == 3
    case InvalidToken => code == 4
    case TokenExpired => code == 5
    case AccessDenied => code == 6
    case InvalidConfigHash => code == 7
  }

  lemma StatusLayout(status: HandshakeStatus, code: byte)
    requires HasCode(status, code)
    ensures PutStatus(status) == [code, 0, 0, 0]
  {
    SmallLittleEndian(code, 4);
  }

  /** One reply: variant, version, status, wording, two ports, no session id. */
  lemma ReplyLayout(status: HandshakeStatus, code: byte, wording: byte, port: U16, port2: U16)
    requires wording < 0x80 && HasCode(status, code)
    ensures ValidUtf8([wording])
    ensures ToBytes(ServerHello(1, status, [wording], [port, port2], None)) ==
      [1, 0, 0, 0] + ([1] + ([code, 0, 0, 0] + ([1, 0, 0, 0, 0, 0, 0, 0, wording]
      + ([2, 0, 0, 0, 0, 0, 0, 0] + ([port % 0x100, port / 0x100] + [port2 % 0x100, port2 / 0x100])
      + [0]))))
  {
    OneCharText(wording);
    StatusLayout(status, code);
    SmallLittleEndian(1, 4);
    PortsLayout(port, port2);
  }

  lemma PortsLayout(port: U16, port2: U16)
    ensures PutSeq(PutU16, [port, port2]) ==
      [2, 0, 0, 0, 0, 0, 0, 0] + ([port % 0x100, port / 0x100] + [port2 % 0x100, port2 / 0x100])
  {
    SmallLittleEndian(2, 8);
    SmallLittleEndian(port, 2);
    SmallLittleEndian(port2, 2);
    assert [port, port2][1..] == [port2] && [port2][1..] == [];
    assert PutAll(PutU16, [port2]) == PutU16(port2) + [] == PutU16(port2);
  }

  lemma PingPongLayout()
    ensures ToBytes(Ping) == [2, 0, 0, 0] && ToBytes(Pong) == [3, 0, 0, 0]
  {
    SmallLittleEndian(2, 4);
    SmallLittleEndian(3, 4);
  }
}
