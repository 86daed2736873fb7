/** The handshake of the reverse tunnel: the server's decision, the client's
    side, and the two run against each other. */
module Handshake {
  import opened Basics
  import opened Digits
  import opened Streams
  import opened Wire
  import opened Framing
  import opened ControlChannel
  import opened TotpWindow
  import opened Totp
  import opened Unicode
  import Base32

  const PROTOCOL_VERSION: byte := 1

  type ShortText = t: Text | |t| <= 0x100 witness []

  /** The checks of the server, in order. */
  datatype Verdict = BadVersion | BadToken | BadTotp | BadHash | NoProxies | Passed

  /** Functions this model leaves uninterpreted: HMAC-SHA1, the hash of the
      configuration's JSON text, and the wording of the replies. */
  datatype World = World(mac: Mac, hashOf: seq<ProxyEntry> -> Text, wording: (Verdict, nat) -> ShortText)

  datatype ServerAuth = ServerAuth(authToken: Option<Text>, allowedTokens: seq<Text>, totpSecret: Option<string>)
  datatype ClientAuth = ClientAuth(token: Option<Text>, totpSecret: Option<string>)

  // One-time passwords of a configured secret

  /** Base32 if it reads as Base32, the raw text otherwise. */
  function SecretBytes(secret: string): Bytes {
    match Base32.Decode(Base32.Padded(Base32.Normal(secret)))
    case Some(b) => b
    case None => StringBytes(secret)
  }

  function CodesOf(mac: Mac, secret: string): Codes {
    StepCodes(Totp(SecretBytes(secret), 6), mac)
  }

  function ClientCode(mac: Mac, client: ClientAuth, now: nat): Option<U32> {
    match client.totpSecret
    case None => None
    case Some(secret) =>
      var t := Totp(SecretBytes(secret), 6);
      assert Pow(10, 6) == 1_000_000;
      var code: U32 := CodeOfStep(t, mac, now / STEP_SECS);
      assert code == Generate(CodesOf(mac, secret), now);
      Some(code)
  }

  // The server's decision

  predicate TokenAccepted(auth: ServerAuth, token: Text) {
    match auth.authToken
    case Some(expected) => token == expected || token in auth.allowedTokens
    case None => true
  }

  ghost predicate TotpAccepted(w: World, auth: ServerAuth, code: Option<U32>, now: nat) {
    match auth.totpSecret
    case Some(secret) => code.Some? && Accepts(CodesOf(w.mac, secret), now, code.value)
    case None => true
  }

  ghost function Judge(w: World, auth: ServerAuth, now: nat, hello: Message): Verdict
    requires hello.ClientHello?
  {
    if hello.version != PROTOCOL_VERSION then BadVersion
    else if !TokenAccepted(auth, hello.token) then BadToken
    else if !TotpAccepted(w, auth, hello.totpCode, now) then BadTotp
    else if w.hashOf(hello.proxies) != hello.configHash then BadHash
    else if hello.proxies == [] then NoProxies
    else Passed
  }

  function StatusFor(v: Verdict): HandshakeStatus {
    match v
    case BadVersion => VersionMismatch
    case BadToken => InvalidToken
    case BadTotp => InvalidToken
    case BadHash => InvalidConfigHash
    case NoProxies => ConfigError
    case Passed => Accepted
  }

  // The same, over the fields of the hello and the server's settings

  /** Without a configured token anything goes; with one, that or an allowed one. */
  ghost predicate TokenMatches(auth: ServerAuth, token: Text) {
    auth.authToken == None || auth.authToken == Some(token) || (exists i :: 0 <= i < |auth.allowedTokens| && auth.allowedTokens[i] == token)
  }

  /** The one-time password of a 30-second step within one of the server's. */
  ghost predicate PasswordMatches(w: World, auth: ServerAuth, code: Option<U32>, now: nat) {
    auth.totpSecret.Some? ==>
      code.Some? && exists step: nat ::
        && now / 30 - 1 <= step <= now / 30 + 1 && step <= (U64_LIMIT - 1) / 30
        && IsOneTimePassword(w.mac, SecretBytes(auth.totpSecret.value), 6, step, code.value)
  }

  lemma CodesExactly(mac: Mac, secret: string, step: nat, code: nat)
    requires step < U64_LIMIT
    ensures CodesOf(mac, secret)(step) == code <==> IsOneTimePassword(mac, SecretBytes(secret), 6, step, code)
  {
    CodeExactly(Totp(SecretBytes(secret), 6), mac, step, code);
  }

  /** A client's code is the password of its own step. */
  lemma ClientCodeExactly(mac: Mac, client: ClientAuth, now: nat, code: U32)
    requires now < U64_LIMIT
    ensures ClientCode(mac, client, now) == Some(code) <==>
      client.totpSecret.Some? && IsOneTimePassword(mac, SecretBytes(client.totpSecret.value), 6, now / 30, code)
    ensures ClientCode(mac, client, now) == None <==> client.totpSecret == None
  {
    if client.totpSecret.Some? {
      CodesExactly(mac, client.totpSecret.value, now / 30, code);
    }
  }

  lemma PasswordExactly(w: World, auth: ServerAuth, code: Option<U32>, now: nat)
    requires now < U64_LIMIT
    ensures TotpAccepted(w, auth, code, now) <==> PasswordMatches(w, auth, code, now)
  {
    if auth.totpSecret.Some? && code.Some? {
      var secret := auth.totpSecret.value;
      AcceptsExactly(CodesOf(w.mac, secret), now, code.value);
      forall step: nat | step <= (U64_LIMIT - 1) / 30
        ensures CodesOf(w.mac, secret)(step) == code.value
           <==> IsOneTimePassword(w.mac, SecretBytes(secret), 6, step, code.value)
      {
        CodesExactly(w.mac, secret, step, code.value);
      }
    }
  }

  lemma TokenExactly(auth: ServerAuth, token: Text)
    ensures TokenAccepted(auth, token) <==> TokenMatches(auth, token)
  {}

  /** The status a hello deserves: that of the first check it fails. */
  ghost predicate Deserves(w: World, auth: ServerAuth, now: nat, hello: Message, status: HandshakeStatus)
    requires hello.ClientHello?
  {
    status == if hello.version != 1 then VersionMismatch
              else if !TokenMatches(auth, hello.token) then InvalidToken
              else if !PasswordMatches(w, auth, hello.totpCode, now) then InvalidToken
              else if w.hashOf(hello.proxies) != hello.configHash then InvalidConfigHash
              else if hello.proxies == [] then ConfigError
              else Accepted
  }

  /** A reply in every field but its wording. */
  ghost predicate Answers(reply: Message, status: HandshakeStatus, proxies: seq<ProxyEntry>, sessionId: ShortText) {
    && reply.ServerHello? && reply.helloVersion == 1 && reply.status == status
    && (if status == Accepted
        then
          && reply.sessionId == Some(sessionId) && |reply.allowedPorts| == |proxies|
          && forall i :: 0 <= i < |proxies| ==> reply.allowedPorts[i] == proxies[i].serverPort
        else reply.sessionId == None && reply.allowedPorts == [])
  }

  lemma ReplyExactly(w: World, auth: ServerAuth, now: nat, hello: Message, sessionId: ShortText)
    requires hello.ClientHello? && now < U64_LIMIT
    ensures var v := Judge(w, auth, now, hello);
      var reply := Reply(w, v, hello.proxies, sessionId);
      && Deserves(w, auth, now, hello, StatusFor(v))
      && Answers(reply, StatusFor(v), hello.proxies, sessionId)
      && (v == Passed <==> Deserves(w, auth, now, hello, Accepted))
  {
    TokenExactly(auth, hello.token);
    PasswordExactly(w, auth, hello.totpCode, now);
  }

  function Ports(proxies: seq<ProxyEntry>): (ports: seq<U16>)
    ensures |ports| == |proxies|
  {
    seq(|proxies|, i requires 0 <= i < |proxies| => proxies[i].serverPort)
  }

  function Reply(w: World, v: Verdict, proxies: seq<ProxyEntry>, sessionId: ShortText): Message {
    if v == Passed
    then ServerHello(PROTOCOL_VERSION, Accepted, w.wording(v, |proxies|), Ports(proxies), Some(sessionId))
    else ServerHello(PROTOCOL_VERSION, StatusFor(v), w.wording(v, 0), [], None)
  }

  lemma {:induction false} PortBytes(ports: seq<U16>)
    ensures |PutAll(PutU16, ports)| == 2 * |ports|
  {
    if ports != [] {
      PortBytes(ports[1..]);
    }
  }

  /** Replies always fit a frame, so the write cannot fail on size. */
  lemma ReplyFits(w: World, v: Verdict, proxies: seq<ProxyEntry>, sessionId: ShortText)
    requires |proxies| * LEAST_ENTRY <= MAX_MESSAGE_SIZE
    ensures |ToBytes(Reply(w, v, proxies, sessionId))| <= MAX_MESSAGE_SIZE
  {
    var m := Reply(w, v, proxies, sessionId);
    PortBytes(m.allowedPorts);
    assert |PutSeq(PutU16, m.allowedPorts)| == 8 + 2 * |m.allowedPorts|;
    assert |PutText(m.message)| <= 8 + 0x100;
    assert |PutOption(PutText, m.sessionId)| <= 9 + 0x100;
  }

  lemma HelloFromFrame(b: Bytes)
    requires ReadMessage(b).result.Ok? && ReadMessage(b).result.value.ClientHello?
    ensures |ReadMessage(b).result.value.proxies| * LEAST_ENTRY <= MAX_MESSAGE_SIZE
  {
    var body := ReadBody(FromBytes, b);
    BodyProxyCount(body);
  }

  method SendReply(w: World, v: Verdict, proxies: seq<ProxyEntry>, sessionId: ShortText, outgoing: ByteStream)
    requires |proxies| * LEAST_ENTRY <= MAX_MESSAGE_SIZE
    modifies outgoing
    ensures outgoing.data == old(outgoing.data) + Frame(ToBytes(Reply(w, v, proxies, sessionId)))
  {
    ReplyFits(w, v, proxies, sessionId);
    var sent := WriteTo(Reply(w, v, proxies, sessionId), outgoing);
  }

  /** One hello in, one reply out; the proxies to serve if every check passed.
      The reply carries the status of the first check the hello fails. */
  method ServeHello(w: World, auth: ServerAuth, now: nat, sessionId: ShortText,
                    incoming: ByteStream, outgoing: ByteStream)
    returns (accepted: Option<seq<ProxyEntry>>, ghost reply: Option<Message>)
    requires now < U64_LIMIT && incoming != outgoing
    modifies incoming, outgoing
    ensures incoming.data == ReadMessage(old(incoming.data)).rest
    ensures var got := ReadMessage(old(incoming.data)).result;
      if got.Ok? && got.value.ClientHello? then
        && reply.Some? && outgoing.data == old(outgoing.data) + Frame(ToBytes(reply.value))
        && |ToBytes(reply.value)| <= MAX_MESSAGE_SIZE
        && reply.value.ServerHello? && Deserves(w, auth, now, got.value, reply.value.status)
        && Answers(reply.value, reply.value.status, got.value.proxies, sessionId)
        && accepted == if reply.value.status == Accepted then Some(got.value.proxies) else None
      else
        outgoing.data == old(outgoing.data) && accepted == None && reply == None
  {
    reply := None;
    var msg := ReadFrom(incoming);
    if msg.Err? || !msg.value.ClientHello? {
      return None, None;
    }
    HelloFromFrame(old(incoming.data));
    accepted, reply := AnswerHello(w, auth, now, msg.value, sessionId, outgoing);
  }

  /** The checks in order, each with its reply. */
  method AnswerHello(w: World, auth: ServerAuth, now: nat, hello: Message, sessionId: ShortText, outgoing: ByteStream)
    returns (accepted: Option<seq<ProxyEntry>>, ghost reply: Option<Message>)
    requires now < U64_LIMIT && hello.ClientHello? && |hello.proxies| * LEAST_ENTRY <= MAX_MESSAGE_SIZE
    modifies outgoing
    ensures reply.Some? && outgoing.data == old(outgoing.data) + Frame(ToBytes(reply.value))
    ensures |ToBytes(reply.value)| <= MAX_MESSAGE_SIZE
    ensures reply.value.ServerHello? && Deserves(w, auth, now, hello, reply.value.status)
    ensures Answers(reply.value, reply.value.status, hello.proxies, sessionId)
    ensures accepted == if reply.value.status == Accepted then Some(hello.proxies) else None
  {
    var v := Decide(w, auth, now, hello);
    SendReply(w, v, hello.proxies, sessionId, outgoing);
    ReplyExactly(w, auth, now, hello, sessionId);
    ReplyFits(w, v, hello.proxies, sessionId);
    reply := Some(Reply(w, v, hello.proxies, sessionId));
    AcceptedExactly(w, v, hello.proxies, sessionId);
    accepted := if v == Passed then Some(hello.proxies) else None;
  }

  method Decide(w: World, auth: ServerAuth, now: nat, hello: Message) returns (v: Verdict)
    requires now < U64_LIMIT && hello.ClientHello?
    ensures v == Judge(w, auth, now, hello)
  {
    if hello.version != PROTOCOL_VERSION {
      return BadVersion;
    }
    if !TokenAccepted(auth, hello.token) {
      return BadToken;
    }
    if auth.totpSecret.Some? {
      var valid := false;
      if hello.totpCode.Some? {
        valid := Verify(CodesOf(w.mac, auth.totpSecret.value), now, hello.totpCode.value);
      }
      if !valid {
        return BadTotp;
      }
    }
    if w.hashOf(hello.proxies) != hello.configHash {
      return BadHash;
    }
    if hello.proxies == [] {
      return NoProxies;
    }
    return Passed;
  }

  // The client's side

  function TokenSent(client: ClientAuth): Text {
    match client.token
    case Some(t) => t
    case None => []
  }

  function Hello(w: World, client: ClientAuth, now: nat, proxies: seq<ProxyEntry>): (m: Message)
    ensures m.ClientHello?
  {
    ClientHello(PROTOCOL_VERSION,
                TokenSent(client),
                ClientCode(w.mac, client, now),
                proxies,
                w.hashOf(proxies))
  }

  method AwaitReply(incoming: ByteStream) returns (entered: bool)
    modifies incoming
    ensures var got := ReadMessage(old(incoming.data)).result;
      entered <==> got.Ok? && got.value.ServerHello? && got.value.status == Accepted
  {
    var reply := ReadFrom(incoming);
    entered := reply.Ok? && reply.value.ServerHello? && reply.value.status == Accepted;
  }

  // Both together

  /** Any hello sent to a server and its reply awaited. The sender enters the
      tunnel phase exactly when the hello fits a frame and passes every check;
      and exactly then the server serves the proxies it named. */
  method Exchange(w: World, hello: Message, auth: ServerAuth, serverNow: nat, sessionId: ShortText)
    returns (entered: bool, served: Option<seq<ProxyEntry>>)
    requires serverNow < U64_LIMIT && hello.ClientHello? && |ToBytes(hello)| < U32_LIMIT
    ensures entered <==>
      && |ToBytes(hello)| <= 16 * 1024 * 1024
      && hello.version == 1
      && TokenMatches(auth, hello.token)
      && PasswordMatches(w, auth, hello.totpCode, serverNow)
      && w.hashOf(hello.proxies) == hello.configHash
      && hello.proxies != []
    ensures served == if entered then Some(hello.proxies) else None
  {
    var up := new ByteStream();
    var down := new ByteStream();
    var sent := Send(hello, up);
    if !sent {
      return false, None;
    }
    ghost var reply;
    served, reply := Deliver(w, hello, auth, serverNow, sessionId, up, down);
    entered := Return(reply, down);
  }

  /** The client's first half. */
  method Send(hello: Message, up: ByteStream) returns (sent: bool)
    requires |ToBytes(hello)| < U32_LIMIT && up.data == []
    modifies up
    ensures sent <==> |ToBytes(hello)| <= MAX_MESSAGE_SIZE
    ensures sent ==> up.data == [] + Frame(ToBytes(hello))
  {
    var r := WriteTo(hello, up);
    return r.Ok?;
  }

  /** The server's half, on a hello that has arrived. */
  method Deliver(w: World, hello: Message, auth: ServerAuth, serverNow: nat, sessionId: ShortText,
                 up: ByteStream, down: ByteStream)
    returns (served: Option<seq<ProxyEntry>>, ghost reply: Message)
    requires serverNow < U64_LIMIT && hello.ClientHello? && |ToBytes(hello)| <= MAX_MESSAGE_SIZE
    requires up != down && up.data == [] + Frame(ToBytes(hello)) && down.data == []
    modifies up, down
    ensures served == if Deserves(w, auth, serverNow, hello, Accepted) then Some(hello.proxies) else None
    ensures reply.ServerHello? && (reply.status == Accepted <==> served.Some?)
    ensures |ToBytes(reply)| <= MAX_MESSAGE_SIZE && down.data == [] + Frame(ToBytes(reply))
  {
    Delivered(hello, up.data);
    ghost var sent;
    served, sent := ServeHello(w, auth, serverNow, sessionId, up, down);
    reply := sent.value;
  }

  /** The client's second half, on a reply that has arrived. */
  method Return(ghost reply: Message, down: ByteStream) returns (entered: bool)
    requires |ToBytes(reply)| <= MAX_MESSAGE_SIZE && down.data == [] + Frame(ToBytes(reply))
    modifies down
    ensures entered <==> reply.ServerHello? && reply.status == Accepted
  {
    Delivered(reply, down.data);
    entered := AwaitReply(down);
  }

  lemma AcceptedExactly(w: World, v: Verdict, proxies: seq<ProxyEntry>, sessionId: ShortText)
    ensures var reply := Reply(w, v, proxies, sessionId);
      reply.ServerHello? && (reply.status == Accepted <==> v == Passed)
  {}

  /** A client connecting to a server. The client enters the tunnel phase exactly
      when its configuration is non-empty and fits a frame, its token is accepted
      and its one-time password is; and exactly then the server serves it, with
      the client's own proxy list. */
  method Connect(w: World, client: ClientAuth, clientNow: nat, proxies: seq<ProxyEntry>,
                 auth: ServerAuth, serverNow: nat, sessionId: ShortText)
    returns (entered: bool, served: Option<seq<ProxyEntry>>)
    requires serverNow < U64_LIMIT
    requires |ToBytes(Hello(w, client, clientNow, proxies))| < U32_LIMIT
    ensures entered <==>
      && proxies != []
      && |ToBytes(Hello(w, client, clientNow, proxies))| <= 16 * 1024 * 1024
      && TokenMatches(auth, if client.token.Some? then client.token.value else [])
      && PasswordMatches(w, auth, ClientCode(w.mac, client, clientNow), serverNow)
    ensures served == if entered then Some(proxies) else None
  {
    if proxies == [] {
      return false, None;
    }
    HonestHello(w, client, clientNow, proxies);
    entered, served := Exchange(w, Hello(w, client, clientNow, proxies), auth, serverNow, sessionId);
  }

  /** What a client sends of itself. */
  lemma HonestHello(w: World, client: ClientAuth, clientNow: nat, proxies: seq<ProxyEntry>)
    ensures var hello := Hello(w, client, clientNow, proxies);
      && hello.version == 1 && hello.proxies == proxies && hello.configHash == w.hashOf(proxies)
      && hello.token == (if client.token.Some? then client.token.value else [])
      && hello.totpCode == ClientCode(w.mac, client, clientNow)
  {}

  lemma Delivered(m: Message, wire: Bytes)
    requires |ToBytes(m)| <= MAX_MESSAGE_SIZE && wire == [] + Frame(ToBytes(m))
    ensures ReadMessage(wire) == Read(Ok(m), []) && wire == Frame(ToBytes(m))
  {
    NothingAround(Frame(ToBytes(m)));
    MessageRoundTrip(m, []);
  }

  lemma NothingAround(b: Bytes)
    ensures [] + b == b && b + [] == b
  {}

  /** Secrets that read as the same bytes, clocks within 30 seconds: the one-time
      password is accepted. */
  lemma SharedSecretAccepted(w: World, auth: ServerAuth, client: ClientAuth, clientNow: nat, serverNow: nat)
    requires auth.totpSecret.None?
      || (client.totpSecret.Some? && SecretBytes(client.totpSecret.value) == SecretBytes(auth.totpSecret.value))
    requires clientNow < U64_LIMIT && serverNow < U64_LIMIT && -30 <= clientNow - serverNow <= 30
    ensures PasswordMatches(w, auth, ClientCode(w.mac, client, clientNow), serverNow)
  {
    PasswordExactly(w, auth, ClientCode(w.mac, client, clientNow), serverNow);
    if auth.totpSecret.Some? {
      SameCodes(w.mac, client.totpSecret.value, auth.totpSecret.value);
      DriftAccepted(CodesOf(w.mac, auth.totpSecret.value), clientNow, serverNow);
    }
  }

  lemma SameCodes(mac: Mac, a: string, b: string)
    requires SecretBytes(a) == SecretBytes(b)
    ensures CodesOf(mac, a) == CodesOf(mac, b)
  {}

  /** So each side may have its own copy of the secret, lower-cased, spaced out
      and stripped of pads in its own way. */
  lemma CopiedSecretAccepted(w: World, auth: ServerAuth, client: ClientAuth, clientNow: nat, serverNow: nat,
                             secret: Bytes, ours: seq<Base32.Edit>, theirs: seq<Base32.Edit>)
    requires client.totpSecret == Some(Base32.ApplyAll(Base32.Encode(secret), ours))
    requires auth.totpSecret == Some(Base32.ApplyAll(Base32.Encode(secret), theirs))
    requires clientNow < U64_LIMIT && serverNow < U64_LIMIT && -30 <= clientNow - serverNow <= 30
    ensures PasswordMatches(w, auth, ClientCode(w.mac, client, clientNow), serverNow)
  {
    CopyReadsAsSecret(secret, ours);
    CopyReadsAsSecret(secret, theirs);
    SharedSecretAccepted(w, auth, client, clientNow, serverNow);
  }

  lemma CopyReadsAsSecret(secret: Bytes, edits: seq<Base32.Edit>)
    ensures SecretBytes(Base32.ApplyAll(Base32.Encode(secret), edits)) == secret
  {
    Base32.SecretSurvivesEdits(secret, edits);
  }

  /** A text with a character that cannot be Base32 is taken as it is. */
  lemma ForeignSecretIsRaw(x: string, c: char, y: string, foreign: char)
    requires foreign in Base32.NormalChar(c) && !Base32.Decodable(foreign)
    ensures SecretBytes(x + [c] + y) == StringBytes(x + [c] + y)
  {
    Base32.ForeignNeverDecodes(x, c, y, foreign);
  }
}
