# GSC-FQ: a verified model of its state machines, codecs and loops

GSC-FQ forwards TCP and UDP and offers a reverse tunnel: a client behind a
firewall connects to a server, announces which server ports it wants, and gets
the traffic of those ports through one connection. This project models the
parts whose correctness is not visible in a single function body, and proves
what they keep over every input and every run.

`dafny verify dfyconfig.toml` checks all of it.

| file | what it holds |
|---|---|
| `Basics.dfy`, `Digits.dfy`, `Unicode.dfy` | options, results, bytes; positional numerals and fixed-width integers; UTF-8 |
| `Admission.dfy` | allow list, per-IP cap and sliding-window rate limit, then every interleaving of connections and datagrams with the true history beside the tables |
| `UdpSessions.dfy` | the UDP session table and its relay tasks as atomic steps |
| `Splice.dfy` | the splice-through-a-pipe loops under any schedule of kernel answers |
| `CopyLoop.dfy`, `AdaptiveStream.dfy` | the buffered copy loop, the two bulk copiers, the sample-then-adapt copier |
| `Wire.dfy`, `Utf8.dfy`, `Framing.dfy` | the control-message codec, its text, and its length-prefixed frames |
| `Handshake.dfy` | the server's decision, the client's side, both run against each other |
| `Tunnel.dfy` | tunnel header, UDP request framing, target lookup; from a validated configuration to the local target |
| `Deployment.dfy` | validation, handshake and routing composed: from the client's file to the local targets |
| `Registry.dfy` | the server's session registry, its cleaner and its handlers |
| `Totp.dfy`, `Base32.dfy` | one-time passwords (section 5.3 of RFC 4226, section 5.2 of RFC 6238) and Base32 secrets (section 6 of RFC 4648) |
| `ConfigText.dfy`, `TextMeaning.dfy`, `Config.dfy`, `ConfigMeaning.dfy`, `NullRewriter.dfy` | address splitting, validation with its accumulated findings and repairs, the `source_ip = null` rewriter; `TextMeaning` and `ConfigMeaning` state what these mean over characters |
| `Selector.dfy` | picking a pooled connection |
| `Backoff.dfy`, `Resilient.dfy` | exponential backoff, reconnection and the data it keeps, the client's retry loop |

## How to read it

Code that changes state is a class or a method with a loop, proved against a
function of the old state; what the source promises is then proved about that
function, over all runs where it is a protocol. A run is a sequence of states
and events; one event is one region executed under a lock.

Left uninterpreted, as parameters or unconstrained inputs: HMAC-SHA1 (any
function giving 20 bytes), the hash of the configuration's JSON text, the
parser of IP literals, the wording of replies, the session id (any text of at
most 256 bytes), random draws, clocks, and how much each read, write or splice
call moves. The body of a control message is laid out by bincode, which is not
part of this model: its default 1.3 layout (little-endian fixed-width integers,
u32 variant tags, u64 lengths, one-byte option tags, trailing bytes ignored) is
an assumption, written out in `Wire.dfy`. Strings are valid UTF-8 byte
sequences there. Floating-point limits and factors are reals.

## What turned out different from what the code seems to promise

Each of these is stated by the member named, most with the exact condition
under which the expected behaviour holds.

- Admissions of datagrams and of connections whose set-up fails are never
  released. An address is locked out for good exactly when as many are stranded
  as the cap allows (`AdmissionRuns.LockedOutExactly`), and that many datagrams
  get there (`AdmissionRuns.DatagramsStrand`). The gauge of active connections
  also keeps every failed connection (`AdmissionRuns.Accounting`).
- Between the end of a relay's loop and its clean-up packets still go out
  through its socket, which nobody reads any more: exactly when is
  `UdpSessions.ReplyIsReadExactly`, a run that gets there is
  `UdpSessions.SentToNobody`.
- One failed pipe-to-socket call makes the first splice loop report success
  with bytes still in the pipe (`Splice.SilentLoss`); which answers lose bytes
  is stated exactly (`Splice.CompleteExactly`).
- A stream of exactly 32 KiB is copied but not flushed
  (`AdaptiveStream.AdaptiveCopyIsCopy`, `AdaptiveStream.ExactSampleUnflushed`);
  a zero-size buffer copies nothing (`BulkCopy.BulkCopyPromise`).
- A frame body of 4 GiB or more is announced modulo 2^32 and does not survive
  (`Framing.RoundTripExactly`, `Framing.FourGibibytesReadAsNothing`).
- Without a token of its own the server checks no token at all
  (`Handshake.Connect`, through `TokenMatches`).
- Activity never refreshes a session: a tick of the cleaner ends it exactly if it
  was registered more than five minutes before (`Registry.CleanerEndsExactly`),
  even while its handler serves (`Registry.EndedWhileServing`).
- The null rewriter panics on a value whose fourth byte boundary lies inside a
  character (`NullRewriter.PanicsExactly`, `NullRewriter.PanicExample`).
- Backoff works in whole milliseconds, so a fractional initial delay can be
  followed by a shorter one (`Backoff.NonDecreasingExactly`,
  `Backoff.ShrinkingExample`), and doubles exactly only under the condition of
  `Backoff.DoublingExactly`.
- Scores are summed in u32: selection is proportional exactly while the sum
  fits (`Selector.ProportionalExactly`).
- Pending data is taken out of a session before the reconnection it is meant
  for, so a failed one loses it; the sweep of expired sessions loses it too
  (`Resilient.LostExactly`), and overlapping recoveries can deliver out of order
  (`Resilient.NothingLostExactly`).
- Upper-casing brings a few foreign letters into the Base32 alphabet
  (`Base32.SharpSReadsAsSS`).
- A peer whose address can no longer be read after its admission is not released
  either; `AdmissionRuns.Accounting` counts it among the stranded.

## Model

| member | source | states |
|---|---|---|
| Admission.StealthConnectionHandler.CheckSecurity | src/proxy/stealth_connection_handler.rs:158-216 | Verdict and per-IP table after one locked check, early returns included: allow list, then cap, then rate limit, pruning even on refusal |
| Admission.StealthConnectionHandler.Retain | src/proxy/stealth_connection_handler.rs:198-200 | The in-place retain keeps exactly the timestamps younger than a second, in order |
| Admission.StealthConnectionHandler.RegisterDisconnection | src/proxy/stealth_connection_handler.rs:219-226 | The counter of a known address drops by one, saturating, and only if a cap is configured |
| Admission.StealthConnectionHandler.BeginConnection | src/proxy/stealth_connection_handler.rs:67-83 | Counters rise exactly when the connection is admitted; an unknown peer skips the check |
| Admission.StealthConnectionHandler.EndConnection | src/proxy/stealth_connection_handler.rs:87-120 | Success releases the address and the gauge; failure releases the address and leaves the gauge |
| AdmissionRuns.Accounting | src/proxy/stealth_connection_handler.rs:67-120 | In every reachable state the per-IP counter is live connections plus stranded admissions and never above the cap; gauge and total are accounted for by running, failed-to-set-up, failed and successful connections |
| AdmissionRuns.DecrementNeverSaturates | src/proxy/stealth_connection_handler.rs:219-226 | A connection that ends is always still counted: the per-IP decrement never saturates, the gauge never underflows |
| AdmissionRuns.PrunedIsTrueHistory | src/proxy/stealth_connection_handler.rs:194-203 | The pruned list is exactly the true admission history of the last second |
| AdmissionRuns.WindowNeverExceeded | src/proxy/stealth_connection_handler.rs:194-210 | In every run with a monotonic clock, every half-open one-second window holds at most as many admissions of an address as the limit says |
| AdmissionRuns.RefusalIsJustified | src/proxy/stealth_connection_handler.rs:194-210 | An address that passes the allow list and the cap is refused for its rate exactly when that many admissions already lie in the last second |
| AdmissionRuns.VerdictExactly | src/proxy/stealth_connection_handler.rs:158-216 | For every policy and in every reachable state: refused if the list names neither the address nor a wildcard, else for the cap if it is used up, else for the rate if the last second is full, else admitted |
| AdmissionRuns.AdmittedAreListed | src/proxy/stealth_connection_handler.rs:160-176 | Every admission of every run is of an address the list names or covers by a wildcard |
| AdmissionRuns.ListedTimesExactly | src/proxy/stealth_connection_handler.rs:194-210 | Once a check has come to the rate limit, the table lists of the address exactly the admissions of the last second, refused or not |
| AdmissionRuns.UncappedCounts | src/proxy/stealth_connection_handler.rs:219-226 | Without a cap nothing is released: the counter is the number of all admissions, or zero without a rate limit either |
| AdmissionRuns.AdmittedExactly | src/proxy/stealth_connection_handler.rs:158-216 | With a cap, a listed address is admitted exactly when live connections plus stranded admissions are below it and one more admission keeps the last second within the limit |
| AdmissionRuns.LockedOutForGood | src/proxy/stealth_connection_handler.rs:229-237 | Once datagrams and failed set-ups have used up the cap, no later step of any run admits the address |
| AdmissionRuns.LockedOutExactly | src/proxy/stealth_connection_handler.rs:229-237 | An address the policy admits at all is locked out of every continuation of a run exactly when its stranded admissions have used up the cap |
| AdmissionRuns.DatagramsStrand | src/proxy/stealth_connection_handler.rs:229-237 | For every cap a run of that many admitted datagrams reaches the lock-out |
| UdpSessions.SessionTable.HandleUdpPacket | src/proxy/stealth_connection_handler.rs:238-308 | What one packet does under the lock is a legal sequence of steps, set-up failures included, and which socket it goes out on |
| UdpSessions.SessionTable.CleanUp | src/proxy/stealth_connection_handler.rs:293-295 | The relay's own removal is the cleanup step |
| UdpSessions.ExactOwnership | src/proxy/stealth_connection_handler.rs:238-300 | In every state of every interleaving each table entry is owned by exactly one unfinished relay holding that socket, and every unfinished relay owns its client's entry unless it is just being entered under the lock |
| UdpSessions.CleanupRemovesOwnSession | src/proxy/stealth_connection_handler.rs:262-296 | Cleanup removes the relay's own session and no other, leaving no relay of that client behind |
| UdpSessions.SentThroughOwnedSocket | src/proxy/stealth_connection_handler.rs:300-308 | Every packet leaves on a socket owned by an unfinished relay of its client |
| UdpSessions.ReplyIsReadExactly | src/proxy/stealth_connection_handler.rs:262-308 | The socket a packet leaves on still has a reader exactly when the owning relay has not ended its loop |
| UdpSessions.SentToNobody | src/proxy/stealth_connection_handler.rs:262-308 | A run of two packets whose second leaves on a socket nobody reads |
| Splice.ZeroCopyDirection | src/proxy/zero_copy.rs:75-125 | The nested loops end in the state of the step system for every schedule: buffers, total and status |
| Splice.SpliceBlocking | src/proxy/splice_optimizer.rs:69-164 | The same for the optimiser's loop, which retries interrupts and returns errors, for any chunk size |
| Splice.CompleteExactly | src/proxy/zero_copy.rs:75-125 | Output, pipe and unread input always make up the input in order; bytes are abandoned in the pipe exactly when some answer makes the inner loop give up, and a finished loop has written everything exactly when, besides, none stops the outer loop before the end of input |
| Splice.EndsExactly | src/proxy/splice_optimizer.rs:69-164 | Which status each loop ends with, over the schedule: end of input exactly where the outer call moves nothing, a break on an outer error in the first loop, a returned error on any error but an interrupt in the second |
| Splice.CleanTransfer | src/proxy/splice_optimizer.rs:69-164 | Over a kernel that never fails and moves nothing only at the end, a finished loop has written the whole input |
| Splice.SilentLoss | src/proxy/zero_copy.rs:100-118 | With the loop's own chunk size, a schedule after which it reports success with a byte left in the pipe |
| CopyLoop.Copy | src/proxy/adaptive_stream.rs:297-364 | The buffered loop with its flush bookkeeping ends in the state of the step system for every read chunking, write and flush failure |
| CopyLoop.RunKeepsLoopHead | src/proxy/adaptive_stream.rs:297-364 | At every loop head: output is an exact prefix, total its length, unflushed bytes below the interval and, where short reads flush, whole buffers; nothing unflushed at normal return unless nothing was copied |
| CopyLoop.FlushesExactly | src/proxy/adaptive_stream.rs:334-345 | A written chunk is flushed with all before it exactly if the interval is full or, where short reads flush, it is shorter than the buffer |
| CopyLoop.ShortReadFlushes | src/proxy/zero_copy.rs:255-258 | A short chunk that is written and flushed leaves nothing unflushed |
| CopyLoop.NothingFlushedEarly | src/proxy/adaptive_stream.rs:334-345 | Where only the interval flushes, nothing is flushed before it is full or the input ends |
| CopyLoop.FailuresExactly | src/proxy/adaptive_stream.rs:312-333 | What a failed read or write leaves behind |
| BulkCopy.ZeroCopyBulk | src/proxy/zero_copy.rs:232-271 | The bulk copier is that loop with its settings and keeps the copy promise, with less than 2 MiB unflushed and only whole buffers |
| BulkCopy.AdaptiveBulk | src/proxy/adaptive_copy.rs:88-134 | The adaptive module's copier likewise, with 4 MiB for buffers of 256 KiB or more |
| BulkCopy.BulkCopyPromise | src/proxy/zero_copy.rs:232-271 | For every chunking: output = input, count = length and all flushed at normal return, exactly if the buffer is not empty or the input is; a read error leaves an exact prefix |
| BulkCopy.BulkFlushesExactly | src/proxy/adaptive_copy.rs:114-121 | Both flush exactly after chunks shorter than their buffer and when 2 MiB, or 4 MiB, are unflushed |
| AdaptiveStream.ReadInitialSample | src/proxy/adaptive_stream.rs:148-184 | The sampler fills its fixed buffer in place with the prefix the sampling function gives |
| AdaptiveStream.SampleRun | src/proxy/adaptive_stream.rs:148-184 | A sample is a prefix, full exactly at 32 KiB, and the end of stream is reported only after the whole input |
| AdaptiveStream.AdaptiveStreamCopy | src/proxy/adaptive_stream.rs:41-69 | Sampling, writing the sample and the adapted loop compose to the adaptive copy function, starting with everything counted as flushed |
| AdaptiveStream.OnlyBurstTraffic | src/proxy/adaptive_stream.rs:200-233 | Whatever the input and chunking, a full sample selects the burst strategy |
| AdaptiveStream.AdaptiveCopyIsCopy | src/proxy/adaptive_stream.rs:41-69 | Normal return means output = input and count = length, with everything flushed exactly unless the stream is 32 KiB long; a later read error leaves an exact prefix |
| AdaptiveStream.AdaptiveFlushesExactly | src/proxy/adaptive_stream.rs:334-345 | After the sample, flushes happen exactly after chunks shorter than 64 KiB and when 128 KiB are unflushed |
| AdaptiveStream.ExactSampleUnflushed | src/proxy/adaptive_stream.rs:41-69 | Any 32 KiB stream read in one piece: normal return, all written, nothing flushed |
| Wire.MessageReads | src/reverse_proxy/protocol.rs:63-72 | Deserialising any serialised message, nested lists and options included, with any bytes behind it, gives the message and those bytes |
| Wire.HelloLayout | src/reverse_proxy/protocol.rs:12-20 | The fields of a hello on the wire, in order, under the stated layout |
| Wire.EntryLayout | src/reverse_proxy/protocol.rs:40-46 | A proxy on the wire, byte by byte |
| Wire.ReplyLayout | src/reverse_proxy/protocol.rs:22-29 | A reply on the wire, byte by byte, for every status |
| Utf8.TextExactly | src/reverse_proxy/protocol.rs:69-72 | Bytes are accepted as text exactly if some string encodes to them |
| Framing.FrameRoundTrip | src/reverse_proxy/protocol.rs:75-117 | Reading a written frame followed by anything yields the message and exactly what follows |
| Framing.ReadsExactlyFrames | src/reverse_proxy/protocol.rs:98-117 | A message is read off a stream if and only if the stream begins with a frame of a body that deserialises to it and keeps the limit, and what follows is left |
| Framing.FailsExactly | src/reverse_proxy/protocol.rs:98-117 | Which streams cannot be read, with which error and what is left: short prefix or body, more than 16 MiB, or no message |
| Framing.OversizeRefused | src/reverse_proxy/protocol.rs:98-108 | A frame announcing more than 16 MiB is refused on its prefix alone |
| Framing.RoundTripExactly | src/reverse_proxy/protocol.rs:75-95 | Of the bodies the writer lets through, exactly those up to 16 MiB survive: length is announced modulo 2^32 |
| Framing.FourGibibytesReadAsNothing | src/reverse_proxy/protocol.rs:75-117 | A body of exactly 4 GiB is read as an empty one and left on the stream |
| Framing.FramesRoundTrip | src/reverse_proxy/protocol.rs:75-117 | Any concatenation of frames decodes to the same sequence |
| ControlChannel.WriteTo | src/reverse_proxy/protocol.rs:75-95 | Writes prefix and body, or nothing at all when the announced length is over the limit |
| ControlChannel.ReadFrom | src/reverse_proxy/protocol.rs:98-117 | Consumes exactly the frame, refusing announced lengths over 16 MiB after the prefix alone, and reports short input and undecodable bodies |
| ControlChannel.MessageRoundTrip | src/reverse_proxy/protocol.rs:63-117 | Every control message with a body of at most 16 MiB survives write and read |
| ControlChannel.ConversationRoundTrip | src/reverse_proxy/protocol.rs:63-117 | A whole conversation of such messages decodes to itself |
| ControlChannel.HelloProxyCount | src/reverse_proxy/protocol.rs:12-46 | A decoded hello holds at most one proxy per thirteen bytes of body |
| Handshake.ServeHello | src/reverse_proxy/server.rs:238-367 | Consumes one message and answers a hello with exactly one reply, whose status is that of the first failing check over the hello's fields and the server's settings; anything else gets none |
| Handshake.ReplyFits | src/reverse_proxy/server.rs:357-367 | No reply ever exceeds the frame limit |
| Handshake.AwaitReply | src/reverse_proxy/client.rs:301-323 | The client goes on exactly on an accepting server hello |
| Handshake.Exchange | src/reverse_proxy/server.rs:238-367 | For any hello: the sender enters the tunnel phase exactly when the frame is at most 16 MiB, the version is 1, the server has no token or the one sent is its own or an allowed one, the one-time password is that of a step within one of the server's, the hash matches and there are proxies; exactly then the server serves them |
| Handshake.Connect | src/reverse_proxy/client.rs:265-324 | A client's own hello is accepted exactly when its list is non-empty and fits, the server takes its token and its one-time password is that of a near step; both sides agree |
| Handshake.ClientCodeExactly | src/reverse_proxy/client.rs:280-285 | A client's code is the RFC 4226 password of its own 30-second step, six digits |
| Handshake.PasswordExactly | src/reverse_proxy/server.rs:288-316 | The server takes exactly the RFC 4226 passwords of its own step and the two next to it |
| Handshake.SharedSecretAccepted | src/reverse_proxy/client.rs:280-285 | With secret texts that read as the same bytes and clocks at most 30 seconds apart the one-time password passes |
| Handshake.CopiedSecretAccepted | src/reverse_proxy/client.rs:280-285 | So both sides may hold copies of one secret lower-cased, spaced out and stripped of pads in different ways |
| Tunnel.CarryTcp | src/reverse_proxy/server.rs:537-541 | Both ends on one stream: what the server opens for port p is dispatched to the first entry of p, or refused without one, and the forwarded bytes follow untouched |
| Tunnel.CarryUdp | src/reverse_proxy/server.rs:555-572 | The same for a datagram, whose payload arrives whole |
| Tunnel.SendUdp | src/reverse_proxy/server.rs:555-572 | Writes header, u16 length and payload |
| Tunnel.FindTarget | src/reverse_proxy/client.rs:475-484 | The first announced entry of the port, or none if no entry has it |
| Tunnel.HandleTunnelStream | src/reverse_proxy/client.rs:346-402 | What the client makes of any byte stream, with every short read, unknown type and missing target |
| Tunnel.RefusedExactly | src/reverse_proxy/client.rs:346-402 | Which streams the client refuses and why, byte by byte: short header, length or payload, unknown or reserved type, no entry for the port |
| Tunnel.TcpReachesTarget | src/reverse_proxy/client.rs:346-400 | Over distinct ports the header leads to that port's target and leaves the following bytes |
| Tunnel.UdpReachesTarget | src/reverse_proxy/server.rs:555-572 | Every datagram the server can receive reaches its port's target whole |
| Routing.ParseProxyConfigs | src/reverse_proxy/client.rs:211-242 | All sections in order, or failure exactly if one does not parse |
| Routing.EntryExactly | src/reverse_proxy/client.rs:211-242 | An entry carries exactly the ports and hosts its section's text names around the last colon, no server host without a colon, and localhost as target host without one |
| Routing.AcceptedAlwaysParses | src/reverse_proxy/client.rs:211-242 | The client never fails to parse an accepted configuration |
| Routing.ValidatedPortsDistinct | src/config/loader.rs:416-457 | An accepted configuration announces pairwise distinct server ports |
| Routing.EndToEnd | src/reverse_proxy/client.rs:346-402 | Every accepted configuration parses, and the bytes sent for the server port a section's text names lead to exactly the host and port its text names, datagrams intact |
| Deployment.ConnectAccepted | src/reverse_proxy/client.rs:132-151 | The proxies of an acceptable configuration parse and are announced, and exactly if the handshake passes the server serves those very entries; then the traffic of every section reaches the target its text names |
| Deployment.ValidateAndConnect | src/config/loader.rs:308-487 | The same from the configuration file on: something is served exactly if the file is well formed and the handshake passes |
| Registry.SessionRegistry.Register | src/reverse_proxy/server.rs:499-505 | Is the registration step of the run system and keeps its invariant: the listeners move from the handler's local list into its entry, leaving none behind, and no entry is overwritten |
| Registry.SessionRegistry.CleanUp | src/reverse_proxy/server.rs:71-93 | A tick removes exactly the sessions silent for over 300 seconds and aborts exactly their listeners |
| Registry.SessionRegistry.Disconnect | src/reverse_proxy/server.rs:638-645 | Removes the client's entry, if still there, and aborts its listeners |
| Registry.ExactlyOneHolder | src/reverse_proxy/server.rs:382-505 | In every run a listener that was not aborted is in exactly one handler's local list or exactly one entry of the table, an aborted one in none |
| Registry.FinishedLeavesNothing | src/reverse_proxy/server.rs:637-645 | All listeners of a finished handler are aborted, whoever removed its entry |
| Registry.CleanerEndsExactly | src/reverse_proxy/server.rs:71-93 | A tick keeps a serving handler's session, unchanged and with its listeners, exactly if it was there and registered at most five minutes before; otherwise all its listeners are aborted |
| Registry.CleanerEndsOldSessions | src/reverse_proxy/server.rs:114-133 | So whatever its activity, a session ends at the first tick more than five minutes after registration |
| Registry.EndedWhileServing | src/reverse_proxy/server.rs:71-93 | A run in which the cleaner ends a session, and aborts its listener, while its handler serves |
| TotpWindow.Verify | src/utils/totp.rs:104-126 | Accepts exactly the codes of the previous, current and next step, at both ends of the u64 clock |
| TotpWindow.DriftAccepted | src/utils/totp.rs:104-126 | A code generated within 30 seconds of the verifier's clock is accepted |
| TotpWindow.AcceptsExactly | src/utils/totp.rs:104-126 | The window is the verifier's 30-second step and the two next to it, as far as the u64 clock reaches |
| Totp.TruncationIsRfc4226 | src/utils/totp.rs:92-97 | The masked shift-or equals the big-endian 31-bit value of section 5.3 of RFC 4226 |
| Totp.Offset | src/utils/totp.rs:91-92 | Every index taken into the digest is in range |
| Totp.CodeOfStep | src/utils/totp.rs:85-101 | Codes are below 10^digits for up to nine digits |
| Totp.CodeExactly | src/utils/totp.rs:85-101 | The code is exactly the password of section 5.3 of RFC 4226 for the step as counter |
| Base32.FromBase32 | src/utils/totp.rs:32-44 | The padding loop completes the normalised text to a multiple of eight and decodes it, with the Unicode letters whose upper case is ASCII |
| Base32.ForeignNeverDecodes | src/utils/totp.rs:32-44 | A character whose upper case is outside the alphabet spoils the whole text, wherever it stands |
| Base32.RoundTrip | src/utils/totp.rs:38-42 | Decoding an encoding gives the bytes back |
| Base32.BlockIsCanonical | src/utils/totp.rs:38-42 | The decoder accepts a block only if it is the encoding of its bytes |
| Base32.AlphabetExactly | src/utils/totp.rs:38-42 | The symbols are those of section 6 of RFC 4648 |
| Base32.VectorF | src/utils/totp.rs:38-42 | One vector of section 10 of RFC 4648, which fixes the order of the bits |
| Base32.SecretSurvivesEdits | src/utils/totp.rs:32-44 | However a secret's text is lower-cased, spaced out and stripped of trailing pads, reading it gives the secret |
| ConfigText.HostPortRebuild | src/config/loader.rs:113-131 | Host and port text of an address with a separator rebuild it, around the last one |
| Config.AddressHalves | src/config/loader.rs:113-159 | The same for the accessors: host ++ ":" ++ port text is the address |
| Config.ConfigFile.Validate | src/config/loader.rs:308-487 | Errors and warnings in order, and exactly the repairs made to the configuration, as functions of it |
| Config.ConfigFile.ValidateProxy | src/config/loader.rs:343-414 | The findings and the repair of one forward proxy |
| Config.ConfigFile.ValidateReverse | src/config/loader.rs:416-484 | The findings of one reverse proxy, with its different order of checks and no repair |
| Config.ValidationExact | src/config/loader.rs:308-487 | Accepted if and only if well formed: every port parses, is not zero and unique in its list, every address is valid or ignorable, reverse proxies have an endpoint section |
| Config.ValidationStable | src/config/loader.rs:308-487 | Validating an accepted configuration again accepts it and changes nothing |
| ConfigMeaning.AcceptanceExactly | src/config/loader.rs:308-487 | The same over the text of the sections: numerals of ports, hosts around colons, whitespace and words of sources |
| ConfigMeaning.ErrorsExactly | src/config/loader.rs:308-487 | Every error, and nothing else, is reported, with its section and port |
| ConfigMeaning.WarningsExactly | src/config/loader.rs:308-487 | And every warning |
| ConfigMeaning.RepairExactly | src/config/loader.rs:393-411 | A forward proxy loses an ignorable source if its ports can be read, and nothing else |
| ConfigMeaning.BindRepairExactly | src/config/loader.rs:324-341 | The server's address is trimmed, becomes loopback if blank, and nothing else changes |
| ConfigMeaning.RemoteHostExactly | src/config/loader.rs:113-131 | The host of a forward target is the one its text names, or localhost |
| TextMeaning.PortExactly | src/config/loader.rs:134-159 | A port text stands for a number exactly if it is a decimal numeral for it that fits u16 |
| TextMeaning.TrimExactly | src/config/loader.rs:393-403 | Trimming removes exactly the Unicode whitespace at both ends |
| NullRewriter.SanitizeSpecialValues | src/config/loader.rs:570-612 | The loop computes the rewriting of the text and its final pop never happens |
| NullRewriter.LinesPreserved | src/config/loader.rs:570-612 | Number of lines and final newline are kept, and the i-th line is the i-th line rewritten |
| NullRewriter.Idempotent | src/config/loader.rs:570-612 | Rewriting the result again changes nothing |
| NullRewriter.RewritesExactly | src/config/loader.rs:582-600 | A line changes if and only if it assigns a bare null to the key |
| NullRewriter.SanitizedExactly | src/config/loader.rs:570-612 | Over the characters of each line: it stays as it is, or it assigns a bare null, in any case and spacing, and only the word changes |
| NullRewriter.AssignmentQuoted | src/config/loader.rs:582-600 | Such a line keeps everything but the word, which is quoted in place |
| NullRewriter.PanicsExactly | src/config/loader.rs:586-589 | The byte slice panics exactly on a value of four bytes or more whose fourth byte boundary is inside a character |
| NullRewriter.StraddledExactly | src/config/loader.rs:586-589 | That boundary lies inside a character exactly if no run of leading characters takes four bytes |
| NullRewriter.PanicExample | src/config/loader.rs:586-589 | `source_ip=` followed by two three-byte characters panics |
| Selector.ConnectionPool.SelectWeightedRandom | src/proxy/connection_selector.rs:95-130 | The draw's index is taken, the fallback never, and the pool loses exactly that element, the last one taking its place |
| Selector.ConnectionPool.SelectBestQuality | src/proxy/connection_selector.rs:71-92 | The first of the highest scores is returned and lost, the last element taking its place |
| Selector.ConnectionPool.SelectRoundRobin | src/proxy/connection_selector.rs:133-144 | The element at the cursor is returned and lost, the last one taking its place; the cursor advances in the old pool |
| Selector.ProportionalExactly | src/proxy/connection_selector.rs:95-130 | Exactly score[i] of the draws pick index i, for all i, if and only if the sum of the u8 scores fits u32 |
| Selector.SmallPoolsAreProportional | src/proxy/connection_selector.rs:95-130 | It does for every pool of up to 16,843,009 connections |
| Selector.PickStretch | src/proxy/connection_selector.rs:118-126 | Index i is picked by exactly the draws in its own stretch of the cumulated scores |
| Selector.SwapRemoveLosesOne | src/proxy/connection_selector.rs:90-91 | `swap_remove` loses exactly one element as a multiset |
| Backoff.DelayCapped | src/proxy/resilient.rs:260-266 | No sleep exceeds the maximum |
| Backoff.StepExactly | src/proxy/resilient.rs:260-266 | One step for any factor: the whole milliseconds times the factor, cut to a whole number, at most the maximum |
| Backoff.ScaledExactly | src/proxy/resilient.rs:262-264 | The cast to u64 drops the fraction and saturates at both ends |
| Backoff.EnhancedHandlerDelays | src/proxy/enhanced_handler.rs:34-40 | The delays of a 1.5 factor from 50 ms: 75, 112, 168, 252, 378, 567 ms |
| Backoff.NonDecreasingExactly | src/proxy/resilient.rs:253-268 | For factor at least 1 and initial at most maximum the sleeps never shrink if and only if there is at most one or the first step does not shrink |
| Backoff.WholeMillisGrow | src/proxy/resilient.rs:253-268 | So they never shrink from a whole number of milliseconds |
| Backoff.ShrinkingExample | src/proxy/resilient.rs:260-266 | 1.5 ms with factor 1.2 is followed by 1 ms |
| Backoff.DoublingDelays | src/proxy/resilient.rs:260-266 | For factor 2 the k-th sleep, k at least 1, is the whole milliseconds doubled k times, capped, for every initial delay up to the maximum |
| Backoff.DoublingExactly | src/proxy/resilient.rs:253-268 | All sleeps are min(initial * 2^k, maximum) exactly under a condition on the configuration alone |
| Resilient.ResilientConnectionManager.ConnectWithRetry | src/proxy/resilient.rs:216-274 | Connects exactly if an attempt within the limit works, stops at the first, sleeps once less than it tries by the delays above, and resets or raises the error count |
| Resilient.ResilientConnectionManager.BeginRecovery | src/proxy/resilient.rs:287-291 | Looks the session up, or reports it missing; nothing is taken yet |
| Resilient.SessionInfo.TakePendingData | src/proxy/resilient.rs:120-125 | Takes all pending data, leaving none, even from a session swept since it was looked up |
| Resilient.ResilientConnectionManager.FinishRecovery | src/proxy/resilient.rs:297-305 | Hands back exactly what was taken if an attempt connects, whatever other recoveries, new data and sweeps came in between; otherwise it is lost |
| Resilient.ResilientConnectionManager.RecoverConnection | src/proxy/resilient.rs:277-309 | The three steps with nothing in between: the pending data comes back exactly on success, is gone either way, and no other session is touched |
| Resilient.ResilientConnectionManager.CleanupExpiredSessions | src/proxy/resilient.rs:323-336 | Exactly the sessions created more than 300 seconds ago go, and that is the sweep step of their books |
| Resilient.ResilientConnectionManager.CacheForLater | src/proxy/resilient.rs:312-320 | Appends to the session's pending data, or reports it missing |
| Resilient.ResilientConnectionManager.CreateResilientConnection | src/proxy/resilient.rs:188-213 | The session is registered before the first attempt and stays so when all fail |
| Resilient.LedgerBalances | src/proxy/resilient.rs:113-125 | Over any interleaving of caching, lookups, takes, settlements and a sweep, cached data is pending, in flight, delivered or lost exactly once |
| Resilient.LostExactly | src/proxy/resilient.rs:277-336 | Nothing is lost if and only if every reconnection that failed held nothing and no sweep removed data nobody could take any more |
| Resilient.NothingLostExactly | src/proxy/resilient.rs:277-336 | Delivered, in-flight and pending data are the cached data in order if and only if, besides, no reconnection brought data back while data taken earlier was in flight |
| Resilient.OvertakingExample | src/proxy/resilient.rs:294-297 | Two overlapping recoveries that succeed and deliver out of order |
| Resilient.SweepExample | src/proxy/resilient.rs:323-336 | A sweep that loses pending data without any recovery |
| ClientRetry.Start | src/reverse_proxy/client.rs:74-129 | At most ten attempts and nine back-offs, which attempts were made, and the outcome, for every script of shutdowns and failures |
| ClientRetry.ClientSleepsAreDelays | src/reverse_proxy/client.rs:76-122 | The client's back-offs min(2^k, 60) are the factor-2 delays from one to sixty seconds |

## Left out

- Connect: a hello body of 4 GiB or more is outside its precondition and those of Exchange, ConnectAccepted and ValidateAndConnect; what such a frame does is stated by Framing.RoundTripExactly.
- CodeOfStep: needs at most nine digits, because `10u32.pow` overflows beyond; the program only uses six.
- Copy: one loop stands for the three loops of the sources it is cited for and the bulk copiers, which differ only in settings; termination is over finite schedules, so nothing is said about endless WouldBlock.
- ZeroCopyDirection: one direction; the two directions share no state. The loop is the one repeated at src/proxy/zero_copy.rs:155-214.
- SpliceBlocking: the adaptive variant (src/proxy/splice_optimizer.rs:262-340) differs in how it picks its chunk and pipe sizes, which any chunk size and any schedule cover.
- ExactlyOneHolder: assumes no two running handlers serve the same peer address, as for live TCP connections; server shutdown, which aborts no session, is not a step.
- ValidateProxy: takes what Config.ReadProxy read off the section (ports, source), where the source parses as it goes; the allow-list, connection-limit and rate fields of a section are not checked by the source and not modelled.
- Validate: errors are recorded by kind, position and port, without their texts.
- Scaled: rounding of f64 is not modelled; neither are NaN and infinite factors.
- WindowCap: NaN and infinite limits are not modelled.
- RecoverConnection: a recovery nothing comes between; BeginRecovery, TakePendingData and FinishRecovery are its steps with anything in between. A recovery dropped while it waits to take the data is not modelled; one dropped later is a failed settlement.
- ConnectWithRetry: the error counter is stated for retries that no other retry overlaps; round-trip history and packet loss are not modelled.
- Sockets, listeners, yamux, tokio scheduling, signals, TCP tuning and `copy_bidirectional` are foreign I/O; they appear as schedules, flags and atomic steps.
- HMAC, SHA-256, JSON text, IP-literal parsing and random number generation are uninterpreted.
- The UDP reply from client to server: the client writes it unframed (src/reverse_proxy/client.rs:433) and the server reads it framed (src/reverse_proxy/server.rs:580-593), so there is no round trip to state.
- `adaptive_tcp_stream_copy`, whose paths after a full sample return errors or are unreachable.
- The small-file branch of `adaptive_copy` (src/proxy/adaptive_copy.rs:67-86), a library copy, and the pure choices `optimal_buffer_size` and `adjust_buffer_size`: easy members; the copy results hold for any buffer size.
- src/crypto, src/service, src/monitoring, src/proxy/handler*.rs, src/proxy/high_perf.rs, black-hole timers and floating-point quality scores: plumbing or easy members; scores are taken as given u8 values.
- Overflow of u64 and usize counters; a build that panics on the u32 sum of scores instead of wrapping.
