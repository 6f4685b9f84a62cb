# A model of PPoSE's reliability, admission, replay and onion layers

PPoSE is a peer-to-peer datagram transport. This project models its protocol logic in Dafny and proves
what that logic is for.

- **The selective-repeat ARQ as a two-endpoint protocol.** `ArqModel` gives each operation of `Arq` as a
  function on values; `ArqEndpoint.Arq` is the object, method by method, proved against it. `Ledger` says
  which sequence numbers, fragment id and frames a list of enqueued messages determines, `Window` which
  set of numbers a base and a 64-bit bitmap stand for, and `Reassembly` what the receiver's buffers and
  history must be for a given set of accepted numbers. `Link` is the invariant of one direction and its
  preservation by every operation; `Network` runs two endpoints over a channel in which a frame, once
  emitted, may arrive any number of times, in any order, or never. `Delivery`, `Flow` and `Progress`
  hold the theorems about all runs, `Recovery` those about retransmission, and `Scope` shows where they end.
  `ArqExact` says of each operation, on the fields and with the source's numbers, what it does.
- **The session discipline.** `SessionModel` gives the waiting loops of `send_timeout` and `recv` turn by
  turn, and histories of calls with their results; `SessionObject.UdpSession` is the object that drives
  `Arq`. `SessionNetwork` shows that two sessions compose into a network run and proves first-in-first-out
  delivery for an application that waits for each send; `SessionExact` says which turn ends a loop and how,
  and `SessionLive` that a send can always succeed.
- **The invitation trust graph.** `AdmissionModel` defines chains, distances and levels, `Trust` proves
  the counting bound and how trust moves with time and ingests, `Admission.TrustStore` is the object with
  its breadth-first search.
- **The replay cache.** `ReplayModel` relates each call to a window of the log of accepted keys,
  `Replay.ReplayCache` is the object.
- **Codecs and onions.** `Frame` and `Packet` are the byte codecs, `Onion` the nested datagrams.

`Wrappers`, `Words` and `Ordered` hold shared types, word and clock arithmetic, and ascending key order.

Facts that come out of the proofs and are not written in the source:

- The send window counts 32 frames, the receive window spans 64 numbers; together they let the sender run
  at most 94 numbers ahead of its oldest unacknowledged one, and the receive base at most 95.
- At most 33 reassembly buffers exist at any time, fewer than the 64 the receive window suggests.
- The protocol theorems hold for runs that allocate at most 2^32 - 999,999 sequence numbers, and that limit
  is exact: `Scope.ScopeIsExact` builds a run that uses them all up and in which an ACK the peer emitted
  long ago would remove the next number, never sent, from the sender's queue.
- `take_retransmits` never marks a frame and then gives up: lower numbers are always ahead in their
  retries, so a give-up happens on the lowest number, before anything is marked, and after exactly five
  hand-outs (`Link.GivesUpAtOnce`, `Flow.GiveUpTiming`).
- The replay cache is a window of its log exactly as long as no call evicts while its two oldest entries are
  equally old (`ReplayModel.RefinesExactly`); `ReplayModel.TiesMayForgetEarly` is a run that does.
- A renewal never shortens trust at the moment it is ingested, but may later (`Trust.ShorterRenewalForgets`);
  it does exactly when at some time between the new expiry and the replaced one the subject itself is
  admitted only thanks to the replaced invitation (`Trust.RenewalExactly`).
- The comment on `enqueue` (src/reliability/arq.rs:84-89) speaks of returned plaintexts; the code returns
  none, and the model follows the code.

Clock readings and durations are natural numbers. A `u64` bitmap is a natural number below 2^64 whose
shifts and single-bit operations are written on its binary digits. A hash map that is iterated is walked in
an arbitrary order, a `BTreeMap` in ascending key order. Signature checking, hashing, key agreement, key
derivation and authenticated encryption are parameters.

## Model

| member | source | states |
|---|---|---|
| Delivery.ExactlyOnce | src/reliability/arq.rs:90-269 | in every run over a losing, duplicating, reordering channel, delivered messages correspond one to one to distinct enqueued ones, byte for byte, and a message is delivered exactly when all its numbers have been accepted |
| Delivery.SuccessMeansDelivered | src/session.rs:371-378 | whenever nothing is unacknowledged, the peer's delivered messages are a permutation of everything enqueued |
| Delivery.AlwaysInOrder | src/session.rs:312-327 | a sender that waits for each send has its messages completed in the order enqueued |
| Delivery.Fifo | src/session.rs:312-327 | for such a sender the delivered messages are always the sent list in order, short of at most the last one, and all of it once nothing is unacknowledged |
| Flow.WindowSpan | src/reliability/arq.rs:136-162 | with m the lowest unacknowledged number: 32 in flight at most, sent frames come first, nothing above m+63 acknowledged, nothing above m+94 ever sent, and the peer's base between m and m+95 |
| Flow.AckSafety | src/reliability/arq.rs:213-220 | however stale, duplicated or reordered an ACK, it removes exactly the numbers it stands for, all of them already accepted by the peer |
| Flow.LatestAckSuffices | src/reliability/arq.rs:206-220 | processing any of the peer's ACKs, in any order and with repetitions, leaves the same queue as processing only the latest of them |
| Flow.BuffersNeverMix | src/reliability/arq.rs:230-236 | each reassembly buffer belongs to one incomplete message and holds exactly its accepted parts, two messages in reassembly never share a fragment id, and there are at most 33 buffers, however often ids have wrapped |
| Flow.NoMismatch | src/reliability/arq.rs:234-236 | the mismatch branch is never taken for a frame the peer's endpoint produced |
| Flow.RetryBound | src/reliability/arq.rs:144-187 | no frame is handed out more than five times, at most 32 are in flight, and a number is only ever handed out in one and the same frame |
| Flow.GiveUpTiming | src/reliability/arq.rs:165-187 | a give-up names the lowest unacknowledged number, handed out exactly five times by then, leaves the queue as it was, and comes at least five times the shortest timeout in force since after its first hand-out |
| Flow.GiveUpConstant | src/reliability/arq.rs:165-187 | with a timeout constantly d, or never below d since the first hand-out, a give-up comes no earlier than 5 d after it |
| Scope.ScopeIsExact | src/reliability/arq.rs:301-309 | some run uses up every number in scope, and an ACK the peer emitted in it would remove the next number, never sent, from the queue |
| Recovery.ResendsExactly | src/reliability/arq.rs:165-187 | in every reachable state: a give-up exactly if some frame last sent at least the timeout ago has had five attempts; otherwise exactly the frames last sent at least the timeout ago are handed out again, once each |
| Recovery.LostFrameReturns | src/reliability/arq.rs:165-187 | the lowest frame, if it has an attempt left, is handed out again once the timeout has passed |
| Recovery.Recover | src/reliability/arq.rs:144-246 | if everything emitted so far is lost, one retransmit scan after the timeout, and then flushes and deliveries of nothing but frames emitted since, empty the queue with everything delivered |
| Progress.Exchange | src/reliability/arq.rs:190-220 | ingesting the lowest unacknowledged frame, new or duplicate, and then the returned ACK always removes that frame |
| Progress.RoundShrinks | src/reliability/arq.rs:144-220 | from every reachable state a flush and one exchange shrink the queue |
| Progress.Drain | src/reliability/arq.rs:144-246 | from every reachable state as many exchanges as unacknowledged frames empty the queue, and then everything enqueued has been delivered |
| Network.Always | src/reliability/arq.rs:90-288 | the invariant of both directions holds after every run |
| Network.IngestData | src/reliability/arq.rs:190-210 | ingesting the bytes of a frame the peer handed out is the arrival of the number they carry |
| Network.IngestAck | src/reliability/arq.rs:190-198 | ingesting the bytes of an ACK is the arrival of its base and bitmap |
| Link.EnqueueKeeps | src/reliability/arq.rs:90-134 | enqueueing keeps the link invariant |
| Link.NewSendsKeeps | src/reliability/arq.rs:144-162 | handing out new frames keeps the link invariant |
| Link.RetransmitsKeeps | src/reliability/arq.rs:165-187 | retransmitting, also when it gives up, keeps the link invariant |
| Link.GivesUpAtOnce | src/reliability/arq.rs:176-181 | a scan that gives up does so on the lowest number there is, before it has marked any frame |
| Link.AckKeeps | src/reliability/arq.rs:213-220 | any ACK that claims no more than was accepted keeps the link invariant |
| Link.DataKeeps | src/reliability/arq.rs:222-246 | the arrival of any frame ever sent keeps the link invariant |
| Link.SetRetxKeeps | src/reliability/arq.rs:286-288 | changing the retransmit timeout keeps the link invariant |
| Link.PopKeeps | src/reliability/arq.rs:267-269 | taking a delivered message keeps the link invariant |
| Link.SentSpan | src/reliability/arq.rs:136-162 | no number more than 94 above an unacknowledged one has been sent, although the code only limits the count |
| Link.BaseSpan | src/reliability/arq.rs:249-264 | the receive base lies between the lowest unacknowledged number and 95 above it |
| Link.AckRead | src/reliability/arq.rs:301-309 | on a reachable link the modular test reads every ACK, however stale, as the set it stands for |
| Link.DataWindow | src/reliability/arq.rs:249-264 | an arriving frame is accepted exactly when it is new and inside the 64-wide window, and then exactly its number is added |
| Reassembly.AcceptKeeps | src/reliability/arq.rs:222-246 | accepting any missing number keeps buffers and history exactly what the accepted set determines, and delivers the message exactly when it became whole |
| Reassembly.OpenDistinct | src/reliability/arq.rs:100-104 | two messages that meet one receive window have different fragment ids |
| Reassembly.EnqueueUnnoticed | src/reliability/arq.rs:90-134 | enqueueing a further message changes nothing about buffers and history |
| Ledger.WireDecodes | src/reliability/arq.rs:95-118 | every frame of a message decodes to that message's chunk, number and fragment id |
| Ledger.WireInjective | src/reliability/arq.rs:105-118 | frames of different numbers differ |
| Ledger.AppendNew | src/reliability/arq.rs:105-134 | the frames `enqueue` stores for a new message are the ones its place in the message list determines |
| Ledger.WindowDistinct | src/reliability/arq.rs:100-104 | fragment ids wrap, yet messages within 64 numbers of each other never share one |
| Ledger.JoinAll | src/reliability/arq.rs:237-244 | the chunks of a message, joined in order, are the message |
| Window.MarkRefinesInsert | src/reliability/arq.rs:249-264 | `mark_received` accepts exactly the numbers in the 64-wide window not yet in the set and adds exactly that number, also across wrap-around |
| Window.SlideKeepsSet | src/reliability/arq.rs:259-262 | the shift loop changes the representation and not the set, and stops at the first missing number |
| Window.AckedExactly | src/reliability/arq.rs:301-309 | the modular ACK test agrees with the set for gaps in (-1,000,000, 2^32 - 1,000,000]; elsewhere within a full turn it is wrong, except that for the 63 numbers most behind it is right exactly if one bit is set |
| ArqExact.EnqueueExactly | src/reliability/arq.rs:90-134 | refused exactly above 261,120 bytes; otherwise as many consecutive numbers as pieces of 1024 bytes are needed, the i-th carrying the i-th piece, under the next fragment id of 1 to 65535, or one number with id 0 for the empty message; nothing else changes |
| ArqExact.NewSendsExactly | src/reliability/arq.rs:136-162 | the lowest unsent numbers, each handed out once and marked, until exactly 32 are in flight or all are |
| ArqExact.RetransmitsExactly | src/reliability/arq.rs:165-187 | for any queue and clock: a give-up exactly if some timed-out frame has no attempt left, on the lowest; otherwise every timed-out frame exactly once, in order, marked; nothing else changes |
| ArqExact.IngestExactly | src/reliability/arq.rs:190-220 | an undecodable frame changes nothing, an ACK removes what it acknowledges, DATA is always answered with the window as it then is |
| ArqExact.MismatchIgnored | src/reliability/arq.rs:234-236 | a fragment that does not fit the waiting buffer only counts as received |
| ArqEndpoint.Arq.constructor | src/reliability/arq.rs:69-82 | a new endpoint is in the initial state of both halves |
| ArqEndpoint.Arq.Enqueue | src/reliability/arq.rs:90-119 | the fragmentation loop computes the specified queue, or refuses more than 255 fragments and changes nothing |
| ArqEndpoint.Arq.EnqueueOne | src/reliability/arq.rs:121-134 | an empty message takes one frame with fragment id 0 |
| ArqEndpoint.Arq.TakeNewSends | src/reliability/arq.rs:144-162 | the scan hands out exactly the lowest unsent numbers the window has room for |
| ArqEndpoint.Arq.TakeRetransmits | src/reliability/arq.rs:165-187 | the scan hands out exactly the due frames, or reports the lowest stuck number with the due ones below it already marked |
| ArqEndpoint.Arq.Ingest | src/reliability/arq.rs:190-211 | decoding, dispatch and the returned ACK |
| ArqEndpoint.Arq.OnAck | src/reliability/arq.rs:213-220 | the scan removes exactly the acknowledged numbers |
| ArqEndpoint.Arq.OnData | src/reliability/arq.rs:222-246 | duplicate suppression, reassembly and delivery in place |
| ArqEndpoint.Arq.MarkReceived | src/reliability/arq.rs:249-264 | the shift loop in place |
| ArqEndpoint.Arq.PopDelivered | src/reliability/arq.rs:267-269 | the oldest delivered message is taken off |
| ArqEndpoint.Arq.TakeAck | src/reliability/arq.rs:272-278 | an ACK is pending once after data was ingested |
| ArqEndpoint.Arq.SetRetx | src/reliability/arq.rs:286-288 | only the timeout changes |
| Frame.FrameBytes | src/reliability/frame.rs:57-75 | both frame layouts, byte by byte |
| Frame.RefusedExactly | src/reliability/frame.rs:78-120 | which byte strings are refused, and with which error |
| Frame.DecodeEncodeData | src/reliability/frame.rs:57-105 | decoding inverts encoding of DATA for every field and payload with index < total, and refuses the rest |
| Frame.DecodeEncodeAck | src/reliability/frame.rs:69-118 | decoding inverts encoding of ACKs |
| Frame.EncodeDecode | src/reliability/frame.rs:78-120 | every accepted DATA byte string re-encodes to itself, an accepted ACK to its first 13 bytes |
| Frame.AcceptedExactly | src/reliability/frame.rs:78-120 | exactly the encodings, and ACK encodings with trailing bytes, are accepted |
| SessionNetwork.SessionFifo | src/session.rs:312-349 | if one application calls send again only after every earlier send returned success or was refused as too large, the messages the other's receives returned are at every moment the first of those sent, in order; once all sends have settled, with those waiting to be received they are all of them |
| SessionNetwork.EndToEnd | src/session.rs:312-327 | the same for any run in which one side enqueues only when nothing of its own is unacknowledged |
| SessionNetwork.Composes | src/session.rs:416-457 | whatever two endpoints do on their own, each ingesting only what is on the other's wire, composes into a network run in which each does exactly that |
| SessionNetwork.LocalView | src/session.rs:416-457 | in every network run each endpoint is in the state its own operations put it in, and its wire holds exactly what it has emitted |
| SessionNetwork.PoliteIsPatient | src/session.rs:312-319 | enqueueing only with nothing unacknowledged carries over from an endpoint's own operations to the run |
| SessionModel.PatientIsPolite | src/session.rs:312-319 | an application that calls send again only after every earlier send settled enqueues only with nothing unacknowledged, whatever it receives in between |
| SessionModel.HistoryMessages | src/session.rs:312-349 | the messages a session has enqueued and handed over are those its calls' results say |
| SessionLive.SendSucceeds | src/session.rs:312-399 | from any two endpoints in conversation with nothing of one side's unacknowledged, some turns make a send of any message that fits return Ok, with everything sent delivered at the peer, in order if sends were polite |
| SessionLive.TurnClears | src/session.rs:371-399 | one turn in which the peer takes in what is in flight and its ACK comes back clears everything in flight |
| SessionExact.WaitAcknowledged | src/session.rs:371-399 | a wait that meets, before deadline, give-up and undecodable frames, an ACK covering all that is unacknowledged returns Ok |
| SessionExact.WaitExactly | src/session.rs:371-399 | the first turn that gives up, finds nothing unacknowledged, is late, or meets an undecodable frame ends the wait, with that cause in that order |
| SessionExact.ReceiveExactly | src/session.rs:322-349 | the first turn that finds a message, gives up, is late, or meets an undecodable frame ends the receive, with that cause in that order |
| SessionExact.FlushExactly | src/session.rs:416-427 | a flush emits the lowest unsent frames up to the window and then every timed-out one, or gives up exactly if a timed-out one has had five attempts |
| SessionExact.ArrivalExactly | src/session.rs:439-457 | a frame that arrives is ingested, its answer emitted, and only one that does not decode is an error |
| SessionModel.WaitOutcome | src/session.rs:371-399 | what each result of the wait means for the queue, and that sent and received messages are untouched |
| SessionModel.WaitIdle | src/session.rs:371-378 | with nothing unacknowledged the wait succeeds at once and changes and sends nothing |
| SessionModel.ReceiveOutcome | src/session.rs:322-349 | a waiting message is returned at once; a timeout leaves none waiting; a success hands over one message; nothing unacknowledged stays so |
| SessionObject.UdpSession.constructor | src/session.rs:165-165 | a session starts with a fresh endpoint and an empty history |
| SessionObject.UdpSession.Flush | src/session.rs:416-427 | new sends go out even when retransmitting then gives up |
| SessionObject.UdpSession.HandleIncoming | src/session.rs:439-457 | one frame is ingested and its ACK, if any, sent |
| SessionObject.UdpSession.WaitAcked | src/session.rs:371-399 | the loop computes the specified wait and never enqueues |
| SessionObject.UdpSession.SendTimeout | src/session.rs:312-319 | enqueue, then wait; the session stays where the history of its calls puts it |
| SessionObject.UdpSession.Recv | src/session.rs:322-349 | the call joins the history with its result |
| SessionObject.UdpSession.RecvLoop | src/session.rs:324-348 | the loop computes the specified receive |
| SessionObject.UdpSession.HandleArrival | src/session.rs:385-397 | nothing that arrives leaves the state alone, a frame is handled |
| SessionObject.UdpSession.SetRetxTimeout | src/session.rs:357-359 | only the timeout changes |
| Admission.TrustStore.TrustDepth | src/admission.rs:323-354 | returns d exactly if d is within the bound and is the length of the shortest chain of invitations valid now from a root, and nothing exactly if no chain within the bound exists, in whatever order the maps are walked |
| Admission.TrustStore.IsAdmitted | src/admission.rs:316-318 | admitted exactly if some chain within the bound exists |
| Admission.TrustStore.IngestInvitation | src/admission.rs:301-311 | verification, cap and insertion in place, an issuer's entry created even when the cap refuses |
| Admission.TrustStore.AddRoot | src/admission.rs:284-286 | only the roots change |
| Admission.TrustStore.SetMaxInviteesPerIssuer | src/admission.rs:291-293 | only the cap changes |
| Admission.TrustStore.constructor | src/admission.rs:275-281 | a new store has no root, no invitation and no cap |
| AdmissionModel.VerifyExactly | src/admission.rs:179-198 | which invitations verify, and the order of the errors |
| AdmissionModel.IngestExactly | src/admission.rs:301-311 | an ingest succeeds exactly if the invitation is in its time, genuine, and renews one or is below the cap; each error exactly in its case; nothing but that one invitation changes |
| Trust.IngestReaches | src/admission.rs:301-354 | a taken invitation extends its issuer's chains of length d to chains of length d + 1 to its subject |
| Admission.LevelExpands | src/admission.rs:330-350 | walking only the frontier completes the next level |
| AdmissionModel.WithinIffChain | src/admission.rs:323-354 | the levels of the search are exactly what chains of that length reach |
| AdmissionModel.OnlyDistance | src/admission.rs:321-354 | an identity has one distance |
| AdmissionModel.Exhausted | src/admission.rs:348-350 | once a level adds nobody, no later level does: the early exit loses nothing |
| Trust.CountingBound | src/admission.rs:291-311 | with the cap at most c from the start, r roots admit at most r(1 + c + ... + c^d) identities within depth d, at any time, after any operations including renewals |
| Trust.RunWellKeyed | src/admission.rs:301-311 | in every run each stored invitation is genuine, filed under its own issuer and subject, and issued no later than the last ingest |
| Trust.TrustDecays | src/admission.rs:179-354 | for queries at or after every ingest, an earlier query finds every distance no longer |
| Trust.IngestGrows | src/admission.rs:301-354 | a successful ingest raises no distance at that same time |
| Trust.RefusalKeeps | src/admission.rs:301-311 | a refused ingest changes nobody's chains |
| Trust.RenewalExactly | src/admission.rs:301-311 | somebody loses admission to some depth at some time at or after an ingest exactly when, at some time the new invitation leaves uncovered and the replaced one would have covered, its subject is admitted to some depth only thanks to the replaced one |
| Trust.ShorterRenewalForgets | src/admission.rs:301-311 | a run in which a shorter renewal costs its subject admission |
| ReplayModel.RefinesExactly | src/network/replay.rs:48-67 | for any calls under a clock that does not run backwards, the cache is after each of them the last unexpired entries of the accept log, as many as the capacity allows, for every choice of eviction, if and only if no call evicts while its two oldest entries are equally old |
| ReplayModel.KeepsExactly | src/network/replay.rs:48-62 | the same for one call from any such cache |
| ReplayModel.RefusesExactly | src/network/replay.rs:48-54 | a call refuses exactly the keys in the window of the log |
| ReplayModel.AnswersExactly | src/network/replay.rs:48-54 | in such a run every answer is the window's |
| ReplayModel.TickingIsSafe | src/network/replay.rs:48-67 | calls at strictly increasing times are such a run |
| ReplayModel.RememberedExactly | src/network/replay.rs:48-67 | a call compares with an accepted key exactly until it expires or as many further keys as the capacity were accepted |
| ReplayModel.TiesMayForgetEarly | src/network/replay.rs:55-59 | with equal times the later key may be evicted first |
| ReplayModel.LiveExactly | src/network/replay.rs:64-67 | an entry stays exactly while the clock is less than the lifetime past it |
| Replay.ReplayCache.constructor | src/network/replay.rs:39-45 | a new cache is empty |
| Replay.ReplayCache.AcceptDatagram | src/network/replay.rs:48-62 | one call in place, its answer in terms of the log, and whether it keeps the cache a window of the log |
| Replay.ReplayCache.Expire | src/network/replay.rs:64-67 | exactly the expired entries go |
| Replay.ReplayCache.OldestKey | src/network/replay.rs:56-56 | some key of least time, whatever the iteration order |
| Replay.SizeBound | src/network/replay.rs:48-62 | occupancy never exceeds the capacity (a capacity of zero still holds one entry), whatever the clock does |
| Onion.RouteRoundTrip | src/onion.rs:38-129 | for any number of hops wrapping succeeds exactly if every carried address is IPv4 and the payload with 86 bytes a hop fits 1200; then the hops learn in order exactly the next addresses and the last is left with the payload |
| Onion.PeelExactly | src/onion.rs:102-129 | a layer is accepted exactly if it has 78 bytes and opens, under the agreed key, its nonce and the public key as associated data, to at least 6 bytes; address, port and payload are those bytes; otherwise BadType if it does not open, Truncated if too short |
| Onion.WrapExactly | src/onion.rs:63-91 | a layer is the public key, the nonce and the sealed address, port and payload |
| Onion.NextsAt | src/onion.rs:47-53 | hop i learns the address of hop i+1, the last hop the destination |
| Onion.LayerRoundTrip | src/onion.rs:63-129 | peeling with the hop's key inverts wrapping a layer, which adds 78 bytes |
| Onion.WrapRoute | src/onion.rs:38-54 | the loop from last hop to first computes the nested layers, and refuses an empty route |
| Onion.LawsAreConsistent | src/onion.rs:63-129 | the laws asked of the cryptography can be met |
| Packet.DatagramRoundTrip | src/network/packet.rs:50-74 | a body of at most 1192 bytes decodes to its type and itself, a longer one is refused |
| Packet.HeaderBytes | src/network/packet.rs:25-47 | the header and the type codes, byte by byte |
| Packet.DecodeOuterExactly | src/network/packet.rs:61-74 | length, magic, version and type are tested in this order |
| Packet.DecodedIsEncoded | src/network/packet.rs:61-74 | an accepted datagram is its header, three reserved bytes and its body |
| Packet.OuterExactly | src/network/packet.rs:61-74 | a datagram of header length is accepted exactly by its first four bytes |

## Left out

- Sockets, socket timeouts, threads, the command line and the examples: input and output only.
- The Noise handshake and transport: the channel carries decrypted inner frames, and nothing is claimed about a datagram lost between sealing and opening.
- Secrecy and unforgeability: X25519, XChaCha20-Poly1305, BLAKE3 and Ed25519 are parameters with the laws stated.
- Cover traffic, configuration and the loss-injection hook: cover frames never reach `ingest`, and a frame the hook drops is a frame the channel loses.
- Forwarding, relay and rendezvous: fixed-offset codecs and a plain table of expiring entries.
- Runs that allocate more than 2^32 - 999,999 sequence numbers: beyond that a stale ACK is misread, and wrapped numbers sort before older ones; `ArqEndpoint.Arq` itself is proved for all of them, the theorems about runs are not.
- Frames not produced by the peer's endpoint: the endpoint's methods take any bytes, the theorems about runs only emitted frames.
- `OnionRelay::step`: the socket loop around `peel_layer` and the replay cache.
- The default waiting time of a send and the default bounds of the replay cache: both are parameters.
- Encoding, decoding and signing of invitations: fixed-offset fields; whether a signature verifies is a parameter.
- Session errors from sockets, packet types and addresses, and the peer address update: what arrives is the decrypted frame, if any.
- The session's waiting loops take their clock readings and arrivals as a list in which the deadline is reached; a datagram from elsewhere or one that does not decrypt is a turn without a frame.
- Replay.ReplayCache.AcceptDatagram: the log clause asks that no call comes earlier than the one before it; an `Instant` taken at each call never does.
