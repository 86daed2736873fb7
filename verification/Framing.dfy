/** An ordered byte stream: what was written and not yet read. */
module Streams {
  import opened Basics

  class ByteStream {
    var data: Bytes

    constructor ()
      ensures data == []
    {
      data := [];
    }

    method WriteAll(b: Bytes)
      modifies this
      ensures data == old(data) + b
    {
      data := data + b;
    }

    /** Exactly n bytes, or end of stream after draining what there was. */
    method ReadExact(n: nat) returns (r: Option<Bytes>)
      modifies this
      ensures |old(data)| >= n ==> r == Some(old(data)[..n]) && data == old(data)[n..]
      ensures |old(data)| < n ==> r == None && data == []
    {
      if |data| < n {
        data := [];
        return None;
      }
      r := Some(data[..n]);
      data := data[n..];
    }
  }
}

/** Length-prefixed frames. The codec of the bodies is a parameter here: `put`
    serialises, `get` deserialises. */
module Framing {
  import opened Basics
  import opened Digits

  const MAX_MESSAGE_SIZE: nat := 16 * 1024 * 1024

  datatype WireError = UnexpectedEof | MessageTooLarge(announced: nat) | DeserializationFailed

  /** `data.len() as u32`. */
  function Announced(body: Bytes): nat {
    |body| % U32_LIMIT
  }

  function Frame(body: Bytes): Bytes {
    Be(Announced(body), 4) + body
  }

  datatype Read<+M> = Read(result: Result<M, WireError>, rest: Bytes)

  function ReadFrame<M>(get: Bytes -> Option<M>, b: Bytes): Read<M> {
    if |b| < 4 then Read(Err(UnexpectedEof), [])
    else
      var len := FromBe(b[..4]);
      if len > MAX_MESSAGE_SIZE then Read(Err(MessageTooLarge(len)), b[4..])
      else if |b| < 4 + len then Read(Err(UnexpectedEof), [])
      else match get(b[4..4 + len])
        case Some(m) => Read(Ok(m), b[4 + len..])
        case None => Read(Err(DeserializationFailed), b[4 + len..])
  }

  /** A message that was read came out of a body within the limit. */
  lemma ReadBody<M>(get: Bytes -> Option<M>, b: Bytes) returns (body: Bytes)
    requires ReadFrame(get, b).result.Ok?
    ensures |body| <= MAX_MESSAGE_SIZE && get(body) == Some(ReadFrame(get, b).result.value)
  {
    body := b[4..4 + FromBe(b[..4])];
  }

  lemma FrameParts(body: Bytes, rest: Bytes)
    ensures var b := Frame(body) + rest;
            |b| >= 4 && b[..4] == Be(Announced(body), 4) && b[4..] == body + rest
    ensures FromBe(Be(Announced(body), 4)) == Announced(body)
  {
    assert Frame(body) + rest == Be(Announced(body), 4) + (body + rest);
    Widths();
    FixedWidthRoundTrip(Announced(body), 4);
  }

  /** Reading what was written yields the message and leaves what follows. */
  lemma FrameRoundTrip<M>(get: Bytes -> Option<M>, body: Bytes, m: M, rest: Bytes)
    requires |body| <= MAX_MESSAGE_SIZE && get(body) == Some(m)
    ensures ReadFrame(get, Frame(body) + rest) == Read(Ok(m), rest)
  {
    var b, len := Frame(body) + rest, |body|;
    FrameParts(body, rest);
    assert b[4..4 + len] == b[4..][..len] == body;
    assert b[4 + len..] == b[4..][len..] == rest;
  }

  /** What is read as m is exactly what begins with a frame of a body that
      deserialises to m and keeps within the limit. */
  lemma ReadsExactlyFrames<M>(get: Bytes -> Option<M>, b: Bytes, m: M, rest: Bytes)
    ensures ReadFrame(get, b) == Read(Ok(m), rest)
       <==> exists body: Bytes :: |body| <= MAX_MESSAGE_SIZE && get(body) == Some(m) && b == Frame(body) + rest
  {
    if ReadFrame(get, b) == Read(Ok(m), rest) {
      var body := FrameRead(get, b, m, rest);
    } else if body: Bytes :| |body| <= MAX_MESSAGE_SIZE && get(body) == Some(m) && b == Frame(body) + rest {
      FrameRoundTrip(get, body, m, rest);
    }
  }

  lemma FrameRead<M>(get: Bytes -> Option<M>, b: Bytes, m: M, rest: Bytes) returns (body: Bytes)
    requires ReadFrame(get, b) == Read(Ok(m), rest)
    ensures |body| <= MAX_MESSAGE_SIZE && get(body) == Some(m) && b == Frame(body) + rest
  {
    body := b[4..4 + FromBe(b[..4])];
    PrefixCanonical(b[..4]);
    Reassemble(b, |body|);
    assert Announced(body) == |body|;
  }

  lemma Reassemble(b: Bytes, len: nat)
    requires 4 + len <= |b|
    ensures b == b[..4] + b[4..4 + len] + b[4 + len..]
  {}

  lemma PrefixCanonical(prefix: Bytes)
    requires |prefix| == 4
    ensures Be(FromBe(prefix), 4) == prefix
  {
    ValueThenDigits(prefix, 0x100);
  }

  /** A frame announcing more than 16 MiB is refused on its prefix alone. */
  lemma OversizeRefused<M>(get: Bytes -> Option<M>, len: nat, rest: Bytes)
    requires 16 * 1024 * 1024 < len < U32_LIMIT
    ensures ReadFrame(get, Be(len, 4) + rest) == Read(Err(MessageTooLarge(len)), rest)
  {
    Widths();
    FixedWidthRoundTrip(len, 4);
    var b := Be(len, 4) + rest;
    assert b[..4] == Be(len, 4) && b[4..] == rest;
  }

  /** Which streams cannot be read, why, and what is left of them: too short for
      the prefix or for the body it announces, too large, or not a message. */
  lemma FailsExactly<M>(get: Bytes -> Option<M>, b: Bytes)
    ensures var r := ReadFrame(get, b);
      var len := if |b| >= 4 then FromBe(b[..4]) else 0;
      && (r == Read(Err(UnexpectedEof), []) <==> |b| < 4 || (len <= 16 * 1024 * 1024 && |b| < 4 + len))
      && (r == Read(Err(MessageTooLarge(len)), b[Min(4, |b|)..]) <==> |b| >= 4 && len > 16 * 1024 * 1024)
      && (r.result == Err(DeserializationFailed) <==>
            |b| >= 4 && len <= 16 * 1024 * 1024 && 4 + len <= |b| && get(b[4..4 + len]) == None)
      && (r.result == Err(DeserializationFailed) ==> r.rest == b[4 + len..])
  {}

  /** Among the bodies the writer lets through, exactly those within the limit
      survive: a body of 4 GiB or more is announced modulo 2^32. */
  lemma RoundTripExactly<M>(get: Bytes -> Option<M>, body: Bytes, m: M)
    requires Announced(body) <= MAX_MESSAGE_SIZE && get(body) == Some(m)
    ensures (forall rest: Bytes :: ReadFrame(get, Frame(body) + rest) == Read(Ok(m), rest))
       <==> |body| <= MAX_MESSAGE_SIZE
  {
    if |body| <= MAX_MESSAGE_SIZE {
      forall rest: Bytes ensures ReadFrame(get, Frame(body) + rest) == Read(Ok(m), rest) {
        FrameRoundTrip(get, body, m, rest);
      }
    } else {
      FrameParts(body, []);
      assert |ReadFrame(get, Frame(body) + []).rest| > 0;
    }
  }

  /** A body of exactly 4 GiB is announced as empty: an empty body is read, and
      all of it is left on the stream. */
  lemma FourGibibytesReadAsNothing<M>(get: Bytes -> Option<M>, body: Bytes)
    requires |body| == U32_LIMIT
    ensures ReadFrame(get, Frame(body)) == Read(
      match get([]) { case Some(m) => Ok(m) case None => Err(DeserializationFailed) }, body)
  {
    FrameParts(body, []);
    var b := Frame(body);
    assert b + [] == b && body + [] == body;
    assert b[4..4] == [];
  }

  function Frames<M>(put: M -> Bytes, ms: seq<M>): Bytes {
    if ms == [] then [] else Frame(put(ms[0])) + Frames(put, ms[1..])
  }

  /** n messages in a row; stops at the first failure. */
  function ReadFrames<M>(get: Bytes -> Option<M>, b: Bytes, n: nat): (seq<M>, Bytes) {
    if n == 0 then ([], b)
    else match ReadFrame(get, b)
      case Read(Ok(m), rest) => var (ms, rest2) := ReadFrames(get, rest, n - 1); ([m] + ms, rest2)
      case Read(Err(_), rest) => ([], rest)
  }

  lemma {:induction false} FramesRoundTrip<M>(put: M -> Bytes, get: Bytes -> Option<M>, ms: seq<M>, rest: Bytes)
    requires forall i :: 0 <= i < |ms| ==> |put(ms[i])| <= MAX_MESSAGE_SIZE && get(put(ms[i])) == Some(ms[i])
    ensures ReadFrames(get, Frames(put, ms) + rest, |ms|) == (ms, rest)
  {
    if ms == [] {
      assert Frames(put, ms) + rest == rest;
    } else {
      var tail := Frames(put, ms[1..]) + rest;
      assert Frames(put, ms) + rest == Frame(put(ms[0])) + tail;
      FrameRoundTrip(get, put(ms[0]), ms[0], tail);
      FramesRoundTrip(put, get, ms[1..], rest);
      assert ms == [ms[0]] + ms[1..];
    }
  }
}

/** Control messages on a stream: the codec inside the frames. */
module ControlChannel {
  import opened Basics
  import opened Digits
  import opened Streams
  import opened Wire
  import opened Framing

  function ReadMessage(b: Bytes): Read<Message> {
    ReadFrame(FromBytes, b)
  }

  method WriteTo(m: Message, writer: ByteStream) returns (r: Result<(), WireError>)
    modifies writer
    ensures r.Ok? <==> Announced(ToBytes(m)) <= MAX_MESSAGE_SIZE
    ensures |ToBytes(m)| < U32_LIMIT ==> (r.Ok? <==> |ToBytes(m)| <= MAX_MESSAGE_SIZE)
    ensures writer.data == if r.Ok? then old(writer.data) + Frame(ToBytes(m)) else old(writer.data)
  {
    r := WriteFrame(ToBytes(m), writer);
  }

  method WriteFrame(data: Bytes, writer: ByteStream) returns (r: Result<(), WireError>)
    modifies writer
    ensures r.Ok? <==> Announced(data) <= MAX_MESSAGE_SIZE
    ensures |data| < U32_LIMIT ==> (r.Ok? <==> |data| <= MAX_MESSAGE_SIZE)
    ensures writer.data == if r.Ok? then old(writer.data) + Frame(data) else old(writer.data)
  {
    var len := |data| % U32_LIMIT;
    if len > MAX_MESSAGE_SIZE {
      return Err(MessageTooLarge(len));
    }
    writer.WriteAll(Be(len, 4));
    writer.WriteAll(data);
    assert old(writer.data) + Be(len, 4) + data == old(writer.data) + Frame(data);
    return Ok(());
  }

  method ReadFrom(reader: ByteStream) returns (r: Result<Message, WireError>)
    modifies reader
    ensures Read(r, reader.data) == ReadMessage(old(reader.data))
  {
    var prefix := reader.ReadExact(4);
    if prefix.None? {
      return Err(UnexpectedEof);
    }
    var len := FromBe(prefix.value);
    if len > MAX_MESSAGE_SIZE {
      return Err(MessageTooLarge(len));
    }
    ghost var wire := old(reader.data);
    var data := reader.ReadExact(len);
    if data.None? {
      return Err(UnexpectedEof);
    }
    assert data.value == wire[4..4 + len] && reader.data == wire[4 + len..];
    var message := FromBytes(data.value);
    r := if message.Some? then Ok(message.value) else Err(DeserializationFailed);
  }

  lemma BytesRoundTrip(m: Message)
    requires |ToBytes(m)| < U64_LIMIT
    ensures FromBytes(ToBytes(m)) == Some(m)
  {
    MessageReads(m, []);
    assert ToBytes(m) + [] == ToBytes(m);
  }

  /** Any control message whose body is at most 16 MiB, followed by anything. */
  lemma MessageRoundTrip(m: Message, rest: Bytes)
    requires |ToBytes(m)| <= MAX_MESSAGE_SIZE
    ensures ReadMessage(Frame(ToBytes(m)) + rest) == Read(Ok(m), rest)
  {
    BytesRoundTrip(m);
    FrameRoundTrip(FromBytes, ToBytes(m), m, rest);
  }

  /** Any concatenation of such frames decodes to the same messages. */
  lemma ConversationRoundTrip(ms: seq<Message>, rest: Bytes)
    requires forall i :: 0 <= i < |ms| ==> |ToBytes(ms[i])| <= MAX_MESSAGE_SIZE
    ensures ReadFrames(FromBytes, Frames(ToBytes, ms) + rest, |ms|) == (ms, rest)
  {
    forall i | 0 <= i < |ms| ensures FromBytes(ToBytes(ms[i])) == Some(ms[i]) {
      BytesRoundTrip(ms[i]);
    }
    FramesRoundTrip(ToBytes, FromBytes, ms, rest);
  }

  // How much a parser consumes

  ghost predicate Consumes<T(!new)>(get: Bytes -> Parsed<T>, least: nat) {
    forall b: Bytes :: get(b).Done? ==> |get(b).rest| + least <= |b|
  }

  lemma BothConsume<A(!new), B(!new)>(first: Bytes -> Parsed<A>, second: Bytes -> Parsed<B>, m: nat, n: nat)
    requires Consumes(first, m) && Consumes(second, n)
    ensures Consumes(Both(first, second), m + n)
  {
    forall b: Bytes | Both(first, second)(b).Done?
      ensures |Both(first, second)(b).rest| + (m + n) <= |b|
    {
      assert first(b).Done? && second(first(b).rest).Done?;
    }
  }

  lemma FieldsConsume()
    ensures Consumes(GetU16, 2) && Consumes(GetText, 8) && Consumes(GetU32Option, 1)
  {}

  lemma TextOptionConsumes()
    ensures Consumes(GetTextOption, 1)
  {
    FieldsConsume();
  }

  lemma EntryConsumes()
    ensures Consumes(GetEntry, LEAST_ENTRY)
  {
    FieldsConsume();
    TextOptionConsumes();
    var host, target := Both(GetTextOption, Both(GetText, GetU16)), Both(GetText, GetU16);
    BothConsume(GetText, GetU16, 8, 2);
    BothConsume(GetTextOption, target, 1, 10);
    BothConsume(GetU16, host, 2, 11);
    forall b: Bytes | GetEntry(b).Done? ensures |GetEntry(b).rest| + LEAST_ENTRY <= |b| {
      assert GetEntry(b).rest == Both(GetU16, host)(b).rest;
    }
  }

  lemma {:induction false} AllConsumes<T(!new)>(get: Bytes -> Parsed<T>, n: nat, b: Bytes, least: nat)
    requires Consumes(get, least)
    requires GetAll(get, n, b).Done?
    ensures var p := GetAll(get, n, b);
            |p.value| == n && |p.rest| + n * least <= |b|
  {
    if n > 0 {
      AllConsumes(get, n - 1, get(b).rest, least);
      assert n * least == (n - 1) * least + least;
    }
  }

  lemma EntriesConsume(b: Bytes)
    requires GetEntries(b).Done?
    ensures |GetEntries(b).value| * LEAST_ENTRY <= |b|
  {
    var n := GetUint(b, 8);
    EntryConsumes();
    AllConsumes(GetEntry, n.value, n.rest, LEAST_ENTRY);
  }

  /** A hello names at most one proxy for every thirteen bytes of its body. */
  lemma HelloProxyCount(b: Bytes)
    requires GetHello(b).Done?
    ensures GetHello(b).value.ClientHello?
    ensures |GetHello(b).value.proxies| * LEAST_ENTRY <= |b|
  {
    HelloFields(b);
    FieldsConsume();
    EntriesConsume(GetU32Option(GetText(GetByte(b).rest).rest).rest);
  }

  /** The proxies of a hello are what the fourth parser reads. */
  lemma HelloFields(b: Bytes)
    requires GetHello(b).Done?
    ensures GetHello(b).value.ClientHello?
    ensures GetByte(b).Done? && GetText(GetByte(b).rest).Done?
    ensures var b2 := GetText(GetByte(b).rest).rest;
      && GetU32Option(b2).Done?
      && GetEntries(GetU32Option(b2).rest).Done?
      && GetHello(b).value.proxies == GetEntries(GetU32Option(b2).rest).value
  {
    FirstFour(GetByte, GetText, GetU32Option, GetEntries, GetText, b);
  }

  lemma FirstFour<A, B, C, D, E>(
    ga: Bytes -> Parsed<A>, gb: Bytes -> Parsed<B>, gc: Bytes -> Parsed<C>, gd: Bytes -> Parsed<D>, ge: Bytes -> Parsed<E>,
    b: Bytes)
    requires Both(ga, Both(gb, Both(gc, Both(gd, ge))))(b).Done?
    ensures ga(b).Done? && gb(ga(b).rest).Done?
    ensures var b2 := gb(ga(b).rest).rest;
      && gc(b2).Done? && gd(gc(b2).rest).Done?
      && Both(ga, Both(gb, Both(gc, Both(gd, ge))))(b).value.1.1.1.0 == gd(gc(b2).rest).value
  {}

  lemma ReplyIsNoHello(b: Bytes)
    requires GetReply(b).Done?
    ensures GetReply(b).value.ServerHello?
  {}

  lemma BodyProxyCount(b: Bytes)
    requires FromBytes(b).Some? && FromBytes(b).value.ClientHello?
    ensures |FromBytes(b).value.proxies| * LEAST_ENTRY <= |b|
  {
    var tag, body := GetUint(b, 4).value, GetUint(b, 4).rest;
    if tag == 1 {
      ReplyIsNoHello(body);
    } else {
      HelloProxyCount(body);
    }
  }
}
