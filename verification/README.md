# BibaVPN: verified model of its state machines and codecs

BibaVPN is a tunnel written in Rust. Around its sockets it has state machines (a pool of
outer sessions brought up by racing callers, credit flow control, a WebSocket/TCP bridge,
rate and replay limits, per-user counters, a DNS-fed routing map) and codecs (mux record in
padded frame in AEAD envelope, TLS ClientHello, DNS messages, HTTP dates). This project models
them in Dafny and proves what they guarantee over all inputs, all interleavings and all runs.

Conventions:

- Code that changes state is a class or a method with loops, proved equal to functions on
  values. Concurrent code is a transition system: one step is what a task does between two
  suspension points or inside one lock, and a run is a sequence of states and events. The
  theorems are about every run.
- Strings are UTF-8 byte sequences, time is a number passed in, random choices are arguments.
  AEAD is a pair of functions assumed only to keep lengths and to decrypt what they
  encrypted. The syntax of IPv6 literals is a parameter; where a theorem needs it, it assumes
  that such a literal contains a colon.
- Fixed widths are kept where they show: wrapping counters, saturating additions, lengths
  truncated to 8, 16 or 24 bits.
- Layouts, constants, verdicts and runs that the theorems rest on are also stated in plain
  numbers, bytes or event counts: the lemmas ending in `Exactly`, `Bytes`, `Layout` or `Shape`,
  and those of `MuxBatch`, `BridgeEvents` and `TextLaws`.

Where a promised property fails, the code is modelled as it is, an input or run that shows the
failure is given, and the exact condition is proved:

- A sealed server chunk that is the single byte 0x10 is taken for OPEN_OK by the client and not
  written (`OneByteSwallowed`), and one such as 11 00 00, a well-formed OPEN_ERR, makes the
  client fail (`OpenErrStops`). A receiver offered everything up to Close has written all of
  the input exactly when no chunk reads as either and no data comes with or after a message of
  more than four times its own size limit (`EndToEndExact`); if the sender's limit is within
  that, exactly when no chunk reads as either (`LimitsFit`).
- Credit flow control between honest ends resets a stream when the receive queue holds 8192
  records (`TinyRecordsCanReset`); this can happen exactly for windows over 8192 bytes
  (`ResetPossibleExactly`).
- The replay cache relies on a clock that does not step back (`ClockStepBackReplays`); a hello
  is accepted twice exactly when the clock had passed its expiry in between
  (`ReplayExactly`).
- The bridge's oversize error is reached in some run exactly when the maximum message size
  leaves no room for 256 bytes (`OversizeReachedExactly`).
- `2 * max_failures - 1` failures in one window length always ban (`BanGuaranteed`). One fewer
  can escape exactly when the window is not zero and no shorter than a ban
  (`FewerEscapeExactly`), which the default of 60 and 300 seconds excludes.
- A written ClientHello of 2^24 bytes or more is read cut off, or refused: the reader sees the
  length modulo 2^24 (`RecordReadExactly`).

Two readings where code and documentation differ, the code being followed: the DNS reader takes
label lengths 0x40 to 0xBF as plain labels, which section 4.1.4 of RFC 1035 reserves; and
`host_is_local_or_private` ignores trailing dots while `decide` then parses the host with them.

## Model

| member | source | states |
|---|---|---|
| MuxConnect.StepKeepsInv | bibavpn/src/local_client.rs:801-990 | every step of callers, fill task, session ends, prunes and shutdown keeps the five-part invariant on serial lock, pool, dialling, removals and wake-ups |
| MuxConnect.RunKeepsInv | bibavpn/src/local_client.rs:801-990 | that invariant, and the clamped width, hold in every state of every interleaving |
| MuxConnect.PoolWithinWidth | bibavpn/src/local_client.rs:961-990 | a non-empty slot holds 1 to clamp(ws_parallel, 1, 4) different sessions |
| MuxConnect.NeverOverwritesPool | bibavpn/src/local_client.rs:811-830 | a new pool is installed only into an empty slot, with no fill running and nobody else past the serial lock |
| MuxConnect.SessionsOfOneGeneration | bibavpn/src/local_client.rs:901-922 | every session in the slot was published into that same generation, which has not ended |
| MuxConnect.RemovedNeverReturns | bibavpn/src/tcp_mux.rs:256-288 | a removed session id never reappears and an ended generation is never in the slot again |
| MuxConnect.NoLostWakeUp | bibavpn/src/local_client.rs:67-100 | a caller parked without notification while sessions are published is about to be notified by its publisher, and that step reaches it |
| MuxConnect.SessionsHaveRemovers | bibavpn/src/local_client.rs:959-990 | until tasks are stopped every published session runs or has its removal waiting, even one that ended between its spawn and its entry into the pool, and the removal then takes it out |
| MuxConnect.HolderCanMove | bibavpn/src/local_client.rs:816-922 | whatever the holder of the serial lock waits for, one of its own steps can happen without cancelling or aborting it |
| MuxConnect.SerialReleased | bibavpn/src/local_client.rs:816-922 | in every interleaving one hold of the serial lock, connecting and filling together, takes at most 19 + 13 attempts steps of its holder |
| MuxBatch.EverySuccessJoins | bibavpn/src/local_client.rs:826-859 | from the installation of a pool on, while no session ends and nothing is shut down, the pool holds one session more than the fill task has pushed, at most one success is in hand, and when the task leaves by itself every success is a session and every attempt has ended |
| MuxBatch.AllSucceedFillsPool | bibavpn/src/local_client.rs:814-859 | if no attempt fails the pool grows to exactly clamp(ws_parallel, 1, 4) sessions |
| MuxBatch.GivesUpAfterAll | bibavpn/src/local_client.rs:816-868 | a caller gives up only after clamp(ws_parallel, 1, 4) times max_attempts failed attempts |
| MuxBatch.InstallsFromBatch | bibavpn/src/local_client.rs:816-830 | a caller that installs has failed in whole batches before the one it succeeds in, and hands the rest of that batch to the fill task |
| MuxBatch.NothingLost | bibavpn/src/local_client.rs:961-990 | in every state of every run each spawned session is in the slot, removed, or about to enter, and a generation has ended exactly if it is not in the slot |
| MuxBatch.LeavesExactlyBy | bibavpn/src/tcp_mux.rs:256-288 | a session leaves the slot exactly by its own end, by a prune that found it stopped, or with the whole slot |
| MuxBatch.GoneExactlyFor | bibavpn/src/local_client.rs:801-868 | a caller returns exactly when cancelled, shut down, when a pool is live, when its own pool and fill task are in place, or when its attempts are exhausted |
| MuxBatch.NotifyReachesAll | bibavpn/src/local_client.rs:831-831 | a notification reaches every caller that waits or is about to look, and changes no other |
| MuxBatch.FillPublishesExactly | bibavpn/src/local_client.rs:911-922 | a finished connection is published exactly if its pool is still in the slot, has not ended and the client is not shutting down |
| MuxPool.RetainExactly | bibavpn/src/tcp_mux.rs:256-288 | retaining keeps exactly the wanted sessions, still distinct |
| MuxPool.RetainInOrder | bibavpn/src/tcp_mux.rs:256-288 | what is retained keeps its order |
| MuxPool.MuxSlot.Narrow | bibavpn/src/tcp_mux.rs:256-288 | the in-place retain: an emptied pool leaves the slot and raises its ended signal, otherwise the generation stays |
| MuxPool.MuxSlot.RemoveMuxSession | bibavpn/src/tcp_mux.rs:269-288 | the slot loses exactly that session, and the generation ends exactly if it was the last |
| MuxPool.MuxSlot.PruneStopped | bibavpn/src/tcp_mux.rs:256-267 | the slot loses exactly the stopped sessions, and the generation ends exactly if none is left |
| MuxPool.MuxSlot.Pick | bibavpn/src/tcp_mux.rs:238-254 | the first least-loaded live session in rotation order, none exactly if no session is live |
| MuxPool.TiesRotate | bibavpn/src/tcp_mux.rs:238-254 | equally loaded sessions are used in turn |
| MuxPool.BestMeans | bibavpn/src/tcp_mux.rs:238-254 | the picked session can take a stream if any can, then has the fewest reserved streams, then the least backlog, and on a tie comes first after the rotating start |
| MuxFlow.FlowObject.Enqueue | bibavpn/src/tcp_mux_flow.rs:137-158 | an accepted record is appended and paid for, a refused one changes nothing; with the window balanced credit and the record count alone decide, and the balance is kept |
| MuxFlow.FlowObject.Receive | bibavpn/src/tcp_mux_flow.rs:160-175 | the oldest record leaves the queue and stays counted until it is written |
| MuxFlow.FlowObject.Consumed | bibavpn/src/tcp_mux_flow.rs:177-183 | the unsigned byte count never wraps for bytes that were received, and the window stays balanced |
| MuxFlow.FlowObject.PublishCredit | bibavpn/src/tcp_mux_flow.rs:185-206 | granting back no more than is owed is never refused and keeps the window balanced |
| MuxFlow.FlowObject.AddCredit | bibavpn/src/tcp_mux_flow.rs:208-224 | a WIN is taken exactly if it has four bytes and a positive amount that fits; the window never exceeds its limit and its distance to it never wraps |
| MuxFlow.FlowObject.TryTakeCredit | bibavpn/src/tcp_mux_flow.rs:226-242 | the grant leaves the window, and is short of the request only if the window is empty then |
| MuxFlow.FlowObject.Cancel | bibavpn/src/tcp_mux_flow.rs:128-135 | the queue is emptied while bytes still held stay counted, so later consumption does not wrap |
| MuxFlow.StepKeepsInv | bibavpn/src/tcp_mux_flow.rs:541-634 | every step of both ends and both wires keeps bytes and credit conserved and CLOSE last, or is the one step that resets |
| MuxFlow.RunKeepsInv | bibavpn/src/tcp_mux_flow.rs:541-634 | the conservation laws hold in every state of every interleaving that is not reset |
| MuxFlow.DeliverRefusedExactly | bibavpn/src/tcp_mux_flow.rs:137-158 | with the books balanced a delivery is refused only by the record count of the queue |
| MuxFlow.ResetExactly | bibavpn/src/tcp_mux_flow.rs:137-158 | two honest ends are reset exactly when a DATA record meets 8192 queued records |
| MuxFlow.DeliveredInOrder | bibavpn/src/tcp_mux_flow.rs:541-634 | the receiving socket gets a prefix of what the sending socket gave, and all of it once shut down |
| MuxFlow.QuiescentHasFullWindow | bibavpn/src/tcp_mux_flow.rs:185-242 | with nothing under way the sender holds the whole window again: no credit is lost |
| MuxFlow.SenderNeverStuck | bibavpn/src/tcp_mux_flow.rs:541-634 | while bytes wait to be sent some task of one end can move |
| MuxFlow.DeliveryBounded | bibavpn/src/tcp_mux_flow.rs:541-634 | in every interleaving the steps after the last read are bounded by a measure of the bytes under way |
| MuxFlow.RestMeansDelivered | bibavpn/src/tcp_mux_flow.rs:541-634 | when only reading is left everything read has been delivered, the window is whole, and after the end of input the receiver has shut down |
| MuxFlow.CoarseRecordsNeverReset | bibavpn/src/tcp_mux_flow.rs:50-53 | records of at least m bytes and a window under 8193 m never reset |
| MuxFlow.TinyRecordsCanReset | bibavpn/src/tcp_mux_flow.rs:137-158 | one-byte records to a slow reader reset a stream although both ends have credit left |
| MuxFlow.ResetPossibleExactly | bibavpn/src/tcp_mux_flow.rs:50-53 | some run with this window is reset by flow control if and only if the window exceeds 8192 |
| MuxFlow.SocketToSocket | bibavpn/src/tcp_mux_flow.rs:555-612 | in every run what is written to the one socket is a prefix of the chunks read from the other, and at the end all of them |
| MuxFlow.RunThrifty | bibavpn/src/tcp_mux_flow.rs:589-612 | between two records the reader holds back less than an eighth of the window, and nothing once its queue is empty |
| MuxFlow.GrantsExactly | bibavpn/src/tcp_mux_flow.rs:589-612 | a WIN goes back exactly when an eighth of the window was written or nothing is queued, for all that was written since the last |
| Bridge.PackedDecodes | bibavpn/src/ws_bridge.rs:299-322 | a packed chunk opens and unpads to the chunk, fits the message limit and is no legacy status |
| Bridge.StepKeepsConserved | bibavpn/src/ws_bridge.rs:152-343 | every step keeps fed + queued + held + buffered payload equal to the bytes taken in |
| BridgeRuns.StepKeepsWellMade | bibavpn/src/ws_bridge.rs:286-394 | every step keeps all messages of all producers decodable, within the limit and no legacy status |
| BridgeRuns.StepKeepsCloseLast | bibavpn/src/ws_bridge.rs:176-193 | every step keeps Close after all chunks, and nothing after Close on the socket |
| BridgeRuns.FedIsPrefix | bibavpn/src/ws_bridge.rs:64-81 | in every run what is fed decodes to a prefix of uplink prefix and TCP bytes, whatever dummies, pongs and pings are mixed in |
| BridgeRuns.CloseIsComplete | bibavpn/src/ws_bridge.rs:176-184 | once Close is fed everything read was fed before it, TCP had ended, and nothing follows |
| BridgeRuns.SuccessfulEofSentAll | bibavpn/src/ws_bridge.rs:399-418 | a successful end after TCP EOF has sent all input and then Close |
| BridgeRuns.UpLoop | bibavpn/src/ws_bridge.rs:206-280 | the receive loop stops at the first refused message or after Close and has written exactly what the accepted ones carry |
| BridgeRuns.PrefixedRead.PollRead | bibavpn/src/ws_bridge.rs:64-81 | successive reads give the prefix and then the socket; nothing is read exactly at the end of both |
| BridgeRuns.RunKeepsUp | bibavpn/src/ws_bridge.rs:206-280 | prefetched items come first and in order, TCP holds exactly what the items taken so far carry, only the last may be refused and none follows Close |
| BridgeEnds.AcceptExactly | bibavpn/src/ws_bridge.rs:40-48 | of the peer's messages exactly those over the limit or reading as OPEN_ERR are refused, exactly those reading as OPEN_OK are swallowed, all others are written as packed |
| BridgeEnds.EndToEndPrefix | bibavpn/src/ws_bridge.rs:206-343 | for any run of each end joined in order, the receiver writes, after its prefetched items, a prefix of the sender's input, unless a chunk is swallowed |
| BridgeEnds.EndToEndExact | bibavpn/src/ws_bridge.rs:206-343 | whatever the two size limits, a receiver offered everything up to Close has written all of the input if and only if no sealed server chunk reads as OPEN_OK or OPEN_ERR and no data comes with or after a message over four times its limit |
| BridgeEnds.LimitsFit | bibavpn/src/ws_bridge.rs:237-242 | with a sender limit of at most four times the receiver limit only a chunk that reads as a status stands in the way |
| BridgeEnds.OneByteSwallowed | bibavpn/src/ws_bridge.rs:40-48 | runs in which a server's only byte 0x10 is not written by the client although both ends close in order |
| BridgeEnds.OpenErrStops | bibavpn/src/ws_bridge.rs:40-48 | runs in which a server's three bytes 11 00 00 make the client fail and write nothing |
| BridgeEnds.OversizeReachedExactly | bibavpn/src/ws_bridge.rs:316-322 | in some run of a configuration a message is too long if and only if the maximum is under 290 + decoy_max + max_pad sealed, or 261 + max_pad plain |
| BridgeEvents.TcpIsSocket | bibavpn/src/ws_bridge.rs:286-296 | the input counted by all theorems is exactly what the socket gave, read by read |
| BridgeEvents.GotIsTaken | bibavpn/src/ws_bridge.rs:206-224 | the items taken are the prefetched ones and then the messages received, one per event |
| BridgeEvents.PingsAnswered | bibavpn/src/ws_bridge.rs:269-271 | in every run each ping taken is answered by one pong with its data, in order; only the last may still be about to be queued |
| BridgeEvents.QueueBounded | bibavpn/src/ws_bridge.rs:145-146 | at most 512 messages wait for the writer in every state |
| BridgeEvents.NoncesDiffer | bibavpn/src/ws_bridge.rs:296-397 | no two sealed messages of one end, data and dummies together, carry the same nonce |
| BridgeEvents.PackTakesExactly | bibavpn/src/ws_bridge.rs:292-340 | a data message decodes to as many of the bytes read as fit beside the overhead, at least 256 if there are that many, and the rest stays |
| BridgeEvents.PrefixReadExactly | bibavpn/src/ws_bridge.rs:287-292 | the uplink prefix is read in pieces of eight messages, at most 524288 bytes |
| BridgeEvents.FirstSevenAreFat | bibavpn/src/frame.rs:154-170 | with adaptive padding the first seven data messages of a bridge aim at 900 to 1400 bytes of frame and all later ones at 128 to 512 |
| BridgeEvents.DeliverExactly | bibavpn/src/ws_bridge.rs:225-268 | for any binary message whatever: when it is dropped, when it fails the bridge, and what is written |
| BridgeEvents.EndsWellExactly | bibavpn/src/ws_bridge.rs:399-420 | a bridge ends well exactly after the flush that follows the peer's Close, or after its own Close is sent, the writer done and the peer closed |
| BridgeEvents.FailsExactly | bibavpn/src/ws_bridge.rs:206-420 | the exact events that fail a bridge |
| FrameStack.StackRoundTrip | bibavpn/src/crypto_layer.rs:118-217 | a mux record sealed as two parts, with any nonce, decoy and padding, comes back whole |
| FrameStack.NeverLegacyStatus | bibavpn/src/ws_bridge.rs:231-236 | no sealed and no plain frame is ever taken for a legacy OPEN_OK or OPEN_ERR |
| FrameStack.WireSizeExact | bibavpn/src/crypto_layer.rs:122-150 | the exact length of a sealed and of a plain message |
| FrameStack.BudgetExact | bibavpn/src/frame.rs:52-70 | a payload is within the budget if and only if it fits for every padding mode and draw |
| FrameStack.NoBudget | bibavpn/src/frame.rs:52-70 | there is no room exactly under 48 bytes or the overhead |
| Frame.Prepare | bibavpn/src/frame.rs:124-179 | refuses exactly payloads over 24 bits of length; the padding never exceeds max_pad, and the adaptive counter moves only in that mode |
| Frame.FindBucket | bibavpn/src/frame.rs:144-149 | the smallest bucket that holds the frame, or the largest bucket |
| Frame.AppendTo | bibavpn/src/frame.rs:185-203 | scattered parts append to the same bytes as one copied payload |
| Frame.ReadsExactlyFrames | bibavpn/src/frame.rs:207-257 | the readers return a payload if and only if the bytes are a frame the writer can produce for it |
| Frame.PadHitsTarget | bibavpn/src/frame.rs:138-171 | a random pad is the draw; in the other modes the frame has exactly the drawn total, or as near as its length and max_pad allow |
| Frame.BucketSizes | bibavpn/src/frame.rs:144-149 | the eleven sizes and which holds a frame |
| Frame.FrameLayout | bibavpn/src/frame.rs:185-203 | a frame byte by byte: version, length, padding after its length, payload |
| Protocol.StatusExactly | bibavpn/src/protocol.rs:132-160 | a status message decodes to a text if and only if it is the encoding of that UTF-8 text, nothing before or after |
| Protocol.MuxExactly | bibavpn/src/tcp_mux.rs:96-136 | record bytes decode to a record if and only if they are its encoding |
| Protocol.MuxLayout | bibavpn/src/tcp_mux.rs:96-125 | a record byte by byte: stream, flags, length, payload |
| Protocol.ClassifyExactly | bibavpn/src/protocol.rs:441-475 | the one byte 10 is OPEN_OK, the byte 11 with a length and that much UTF-8 is OPEN_ERR, all else is payload |
| Crypto.ChaHalf.NextNonce | bibavpn/src/crypto_layer.rs:102-116 | a nonce this half has never issued before, or none, for ever |
| Crypto.ChaHalf.Seal | bibavpn/src/crypto_layer.rs:118-151 | the copied plaintext is sealed to the envelope, one counter value is used |
| Crypto.ChaHalf.SealFrame | bibavpn/src/crypto_layer.rs:122-217 | the fused scatter/gather path gives the envelope of the concatenated parts |
| Crypto.ChaHalf.PadThenSeal | bibavpn/src/frame.rs:102-121 | copying, padding and sealing gives that same envelope for the same choices |
| Crypto.ChaHalf.OpenRange | bibavpn/src/crypto_layer.rs:153-171 | in-place decryption leaves exactly the payload in the returned range of the buffer, or refuses |
| Crypto.ChaHalf.Open | bibavpn/src/crypto_layer.rs:178-191 | the copying path opens to the same payload |
| Crypto.ChaHalf.OpenOwned | bibavpn/src/crypto_layer.rs:173-176 | the slicing path opens to the same payload |
| Crypto.OpenUndoesSeal | bibavpn/src/crypto_layer.rs:122-171 | opening undoes sealing for every nonce, decoy and payload |
| Crypto.NonceInjective | bibavpn/src/crypto_layer.rs:102-116 | different counters give different nonces |
| Crypto.NoncesNeverRepeat | bibavpn/src/crypto_layer.rs:102-116 | over any sequence of allocations no nonce is issued twice, and exhaustion is for ever |
| Crypto.NonceValue | bibavpn/src/crypto_layer.rs:102-116 | the nonce is the counter as a big-endian number of twelve bytes |
| Crypto.EnvelopeLayout | bibavpn/src/crypto_layer.rs:122-151 | an envelope byte by byte: nonce, and under it the decoy after its length and the inner bytes, then the tag |
| Crypto.OpenedExactly | bibavpn/src/crypto_layer.rs:153-171 | what opens has an authenticated plaintext that starts with a whole decoy, and is what follows it |
| Hello.ResolveAllInvisible | biba/src/grease.rs:7-28 | filling in GREASE placeholders cannot be seen after normalisation |
| HelloWriter.PutU16s | biba/src/extensions.rs:133-141 | the list loop appends the big-endian numbers in order |
| HelloWriter.PutNames | biba/src/extensions.rs:144-154 | the ALPN loop writes each name after its length byte |
| HelloWriter.PutShares | biba/src/extensions.rs:161-172 | the key share loop writes group, length and key of each entry |
| HelloWriter.Fill | biba/src/marshal.rs:152-210 | GREASE and server name are filled into one extension, and the GREASE slot advances only for placeholders |
| HelloWriter.MarshalExtensions | biba/src/marshal.rs:109-150 | the block is the filled-in extensions in order with the last Boring padding resolved and earlier ones absent |
| HelloWriter.MarshalBody | biba/src/marshal.rs:61-100 | the body is laid out field by field; a session id over 255 bytes is an error |
| HelloWriter.MarshalRecord | biba/src/marshal.rs:31-58 | the handshake in one record, lengths truncated to 24 and 16 bits |
| HelloReader.PairLoop | biba/src/extensions.rs:398-410 | the list loop reads the whole pairs within the declared and the present length |
| HelloReader.HostLoop | biba/src/extensions.rs:377-394 | the name loop finds the first host name, stopping at truncation |
| HelloReader.NameLoop | biba/src/extensions.rs:419-430 | the ALPN loop reads the whole names before any truncation |
| HelloReader.ShareLoop | biba/src/extensions.rs:441-453 | the key share loop reads the whole entries before any truncation |
| HelloReader.ParseBlock | biba/src/extensions.rs:500-526 | the block loop returns all extensions or the first error, opaque ones only with blunt mimicry |
| HelloReader.ParseBody | biba/src/parse.rs:41-125 | the cursor over a body with every length check |
| HelloRoundTrip.ExtensionRead | biba/src/extensions.rs:305-497 | reading one written extension gives it back, with the host normalised; an opaque one is reported unsupported |
| HelloRoundTrip.BlockRead | biba/src/extensions.rs:500-526 | reading a written block gives the written list |
| HelloRoundTrip.RecordReadExactly | biba/src/parse.rs:10-42 | for every body the reader sees it up to its length modulo 2^24, and refuses exactly if that does not fit a record |
| HelloNormal.RoundTrip | biba/src/marshal.rs:31-210 | reading a written record gives the normal form of the spec, exactly when mimicry is blunt or no extension is opaque |
| HelloNormal.WriteThenRead | biba/src/marshal.rs:218-228 | the writer's buffers followed by the reader's cursor return that normal form, or the first opaque extension as an error |
| HelloNormal.BodyLength | biba/src/marshal.rs:125-137 | the length the padding is computed from is the true length of the body |
| HelloNormal.BoringLength | biba/src/extensions.rs:243-256 | with Boring padding (section 3 of RFC 7685) no body is 256 to 511 bytes long, and 256 to 507 becomes exactly 512 |
| HelloBytes.VersionBytes | biba/src/marshal.rs:61-72 | the body starts 03 03 if vmax is TLS 1.3 or some supported_versions list holds it (section 4.1.2 of RFC 8446), else with the larger of vmin and vmax |
| HelloBytes.SuiteBytes | biba/src/marshal.rs:80-92 | the suites stand after the session id in order, placeholders replaced by the value the first seed gives |
| HelloBytes.PartBytes | biba/src/marshal.rs:61-100 | random, session id, compression methods and extensions stand where the lengths before them say |
| HelloBytes.RecordBytes | biba/src/marshal.rs:31-58 | record and handshake headers in numbers, lengths modulo 2^16 and 2^24 |
| HelloBytes.GreaseExactly | biba/src/grease.rs:7-20 | GREASE is exactly the sixteen values of section 2 of RFC 8701 |
| HelloBytes.BoringGreaseExactly | biba/src/grease.rs:23-28 | bits 4 to 7 of a seed choose one of the sixteen |
| HelloBytes.FilledExactly | biba/src/marshal.rs:152-210 | what each extension becomes on the wire: the first placeholder empty, later ones with a zero byte, groups and key shares from one seed, empty server names filled in |
| HelloBytes.TypeNumbers | biba/src/extensions.rs:84-112 | the extension types as assigned |
| HelloBytes.WireBytes | biba/src/extensions.rs:212-229 | an extension is its type, its length and its payload |
| HelloBytes.ListBytes | biba/src/extensions.rs:133-141 | lists of numbers after their length in bytes |
| HelloBytes.NestedVectors | biba/src/extensions.rs:114-210 | ALPN h2, one key share and a server name, byte for byte |
| HelloBytes.NormalExactly | biba/src/marshal.rs:61-100 | what comes back of suites, compression methods and versions |
| HelloBytes.HostExactly | biba/src/extensions.rs:231-241 | the written host: nothing for an empty name, an IPv4 literal or a colon, else without trailing dots in small letters |
| HelloAccept.NamesExactly | biba/src/extensions.rs:419-430 | for every byte string the names read are those that stand whole before the first truncation |
| HelloAccept.SharesExactly | biba/src/extensions.rs:441-453 | for every byte string the key shares read are those that stand whole before the first truncation |
| HelloAccept.AcceptedTypes | biba/src/extensions.rs:305-363 | which extension types are known, and the error of the others |
| HelloAccept.NumberLists | biba/src/extensions.rs:398-410 | number lists hold the whole pairs that both the declared and the present length allow |
| HelloAccept.WholeLists | biba/src/extensions.rs:412-455 | the other lists are taken whole or as empty |
| HelloAccept.BlockExactly | biba/src/extensions.rs:500-526 | for every byte string a block is accepted if and only if it is a sequence of extensions each of which is |
| HelloAccept.BodyExactly | biba/src/parse.rs:41-125 | for every byte string a body is accepted if and only if it is laid out as version, random, session id, whole suites, compression methods and an acceptable block, and the spec is read off those parts |
| HelloAccept.RecordExactly | biba/src/parse.rs:10-40 | for every byte string a record is accepted if and only if it is a handshake record around an acceptable body, whatever follows either |
| HelloSni.ParseSniExtension | bibavpn/src/domain_route.rs:400-429 | the name list loop returns the first host name, trimmed and lower-cased, unless it is empty or an address |
| HelloSni.ParseExtensionsSni | bibavpn/src/domain_route.rs:379-398 | the extension loop returns the first usable server name |
| HelloSni.ParseBodySni | bibavpn/src/domain_route.rs:349-377 | the position walk over a body with every bound |
| HelloSni.SniAgrees | bibavpn/src/domain_route.rs:325-429 | on every written record the independent reader returns the first non-empty normalised host the writer wrote, else nothing |
| HelloSni.OneServerName | biba/src/extensions.rs:231-240 | with one server_name extension (section 3 of RFC 6066) it returns that host, and nothing exactly if it normalises to empty |
| HelloSni.TwoReadersAgree | bibavpn/src/domain_route.rs:325-430 | on every byte string the full reader accepts with blunt mimicry the routing reader returns the first server name that is neither empty nor an address |
| AuthLimiter.SameBucketExactly | bibavpn/src/server_limits.rs:55-96 | addresses share a bucket exactly if they are one IPv4 address, mapped or not, or of one IPv6 /64 |
| AuthLimiter.AuthRateLimiter.CheckAllowed | bibavpn/src/server_limits.rs:110-133 | refuses exactly while the bucket is banned, leaves every other bucket alone and no expired ban behind, and keeps the ban counter exact |
| AuthLimiter.AuthRateLimiter.PruneLocked | bibavpn/src/server_limits.rs:135-145 | keeps exactly live bans and live windows, and counts down each expired ban once |
| AuthLimiter.AuthRateLimiter.FindVictim | bibavpn/src/server_limits.rs:157-172 | an oldest entry that is not banned, none exactly if all are |
| AuthLimiter.AuthRateLimiter.RecordFailure | bibavpn/src/server_limits.rs:147-199 | room is made, the failure is counted in its window, the ban is issued at the threshold, and counter and cap stay exact |
| AuthLimiter.AuthRateLimiter.RecordSuccess | bibavpn/src/server_limits.rs:209-226 | afterwards the bucket is tracked exactly if it is banned now, the others stay, and the ban counter stays exact |
| AuthLimiter.StepKeepsInv | bibavpn/src/server_limits.rs:110-226 | each operation keeps the ban counter exact, without underflow, and the table within its cap |
| AuthLimiter.RunKeepsInv | bibavpn/src/server_limits.rs:110-226 | in every reachable state bans_active equals the entries that carry a ban and the cap holds |
| AuthLimiter.BanHolds | bibavpn/src/server_limits.rs:110-145 | a ban until T makes every check before T fail, whatever happens in between |
| AuthLimiter.BanHasCause | bibavpn/src/server_limits.rs:147-199 | every ban follows at least max_failures failures of its bucket within the last window |
| AuthLimiter.BanGuaranteed | bibavpn/src/server_limits.rs:147-199 | 2 max_failures - 1 failures of an unbanned bucket in one interval of window length always ban it |
| AuthLimiter.BanGuaranteedSooner | bibavpn/src/server_limits.rs:147-199 | if a ban outlasts the window, or the window is zero, 2 max_failures - 2 failures already ban |
| AuthLimiter.FewerEscapeExactly | bibavpn/src/server_limits.rs:110-199 | for every configuration with max_failures of at least 2, some run escapes 2 max_failures - 2 failures if and only if the window is at least 1 and no shorter than a ban |
| AuthLimiter.BanSets | bibavpn/src/server_limits.rs:180-205 | a ban runs from the failure that issued it until `ban` later |
| AuthLimiter.BansComeFromFailures | bibavpn/src/server_limits.rs:147-207 | no operation leaves a ban that no failure issued |
| AuthLimiter.TotalsExact | bibavpn/src/server_limits.rs:147-207 | in every run the published totals are the numbers of counted failures and of bans, modulo 2^64 |
| AuthLimiter.PrunedExactly | bibavpn/src/server_limits.rs:135-145 | pruning keeps exactly running bans and windows not yet over |
| AuthLimiter.TableBounded | bibavpn/src/server_limits.rs:147-207 | in every run at most 100000 buckets are tracked and the gauge counts the bans carried |
| ReplayCache.RealityReplayCache.CheckAndInsert | bibavpn/src/reality.rs:149-174 | the window test, the retain, the search and the cap in place |
| ReplayCache.RetainedExactly | bibavpn/src/reality.rs:157-160 | exactly the unexpired records are retained, nonces still distinct |
| ReplayCache.AcceptsExactly | bibavpn/src/reality.rs:149-174 | accepted if and only if in the window, without a live record of the nonce, and below the cap |
| ReplayCache.RunKeepsDistinct | bibavpn/src/reality.rs:149-174 | in every run stored nonces are distinct and within the cap |
| ReplayCache.LiveRecordKept | bibavpn/src/reality.rs:166-170 | a live record is never dropped, not even for room |
| ReplayCache.NoReplay | bibavpn/src/reality.rs:117-174 | with a clock that never steps back a nonce is accepted again only after its record expired, and never with the same timestamp |
| ReplayCache.ReplayExactly | bibavpn/src/reality.rs:149-174 | for any clock and any refused presentations in between, a repeated hello in the window is accepted a second time exactly if the clock had passed its expiry |
| ReplayCache.ClockStepBackReplays | bibavpn/src/reality.rs:149-174 | a run with a clock step back in which the same hello is accepted twice |
| ReplayCache.OutsideExactly | bibavpn/src/reality.rs:117-129 | in plain arithmetic a hello is outside the window exactly if its timestamp is more than the difference before or after now, and then nothing changes |
| ReplayCache.VerdictExactly | bibavpn/src/reality.rs:149-176 | each verdict in plain terms: outside, else replayed if a live record has the nonce, else full at 65536 live records, else accepted |
| ReplayCache.StoredWasAccepted | bibavpn/src/reality.rs:149-176 | in every run each record was put there by an accepted hello whose timestamp was in the window then |
| ReplayCache.RecordsExpire | bibavpn/src/reality.rs:149-176 | a record is live at most twice the window after its acceptance |
| Users.ValidateUsers | bibavpn/src/users.rs:34-55 | accepts exactly files with sound, unique labels and tokens and no zero limit |
| Users.UserRegistry.Acquire | bibavpn/src/users.rs:91-115 | one session more of an enabled user with that token and within its limit, or no change; every counter stays the number of live sessions |
| Users.UserRegistry.DropSession | bibavpn/src/users.rs:68-79 | one live session less, the counter does not wrap and leaves no zero entry |
| Users.AdmitZeroEntry | bibavpn/src/users.rs:101-112 | a zero counter entry arises if and only if the limit is zero, which validation refuses |
| Users.FindUserIn | bibavpn/src/users.rs:93-100 | a user is found exactly if a digest matches, and of several the last |
| Users.RunExact | bibavpn/src/users.rs:68-115 | over acquires, drops and file changes every counter equals the live sessions and is never zero |
| Users.LimitRespected | bibavpn/src/users.rs:91-115 | a successful acquire leaves the user's live sessions within the limit then in force |
| Users.RefusedExactly | bibavpn/src/users.rs:91-115 | an acquire is refused exactly for a bad file, no or a disabled user, or a reached limit |
| Dns.ReadName | bibavpn/src/domain_route.rs:529-569 | terminates on every byte string and returns a position inside it |
| Dns.ReadsExactlyNames | bibavpn/src/domain_route.rs:529-569 | a name is returned if and only if one stands there (section 4.1.4 of RFC 1035) within 32 pointers and 128 labels |
| Dns.NameUnique | bibavpn/src/domain_route.rs:529-569 | a position holds at most one name |
| Dns.ParseDnsAnswers | bibavpn/src/domain_route.rs:461-524 | header, questions and answers are read with every bound |
| Dns.ReadAnswers | bibavpn/src/domain_route.rs:490-523 | the answer loop collects the addresses in order or fails as a whole |
| Dns.ReadRecord | bibavpn/src/domain_route.rs:491-522 | one record: A with 4 bytes, AAAA with 16, anything else is passed over |
| Dns.ParseInvertsEncode | bibavpn/src/domain_route.rs:461-524 | the parser inverts a reference encoder with compressed or spelled owner names: id, first name, and the A and AAAA records in order |
| DnsLayout.ParsesExactlyResponses | bibavpn/src/domain_route.rs:461-524 | for every byte string a response is returned if and only if the message is laid out as one (sections 4.1.1 to 4.1.4 of RFC 1035), with its id, the text of its first name and, in order, the data and time to live of its type 1 records of 4 bytes and type 28 records of 16, whatever compression it uses |
| DnsLayout.AnswersExactly | bibavpn/src/domain_route.rs:504-522 | the answers are, in order and none left out, the data and time to live of the records of type 1 with 4 bytes and type 28 with 16 |
| DnsLayout.EncodedAnswersComeBack | bibavpn/src/domain_route.rs:461-524 | of an encoded message exactly those records come back |
| Bypass.HitsExactly | bibavpn/src/domain_route.rs:194-206 | an entry hits a domain if and only if its labels end the domain's labels, up to ASCII case |
| Bypass.MatchesBypass | bibavpn/src/domain_route.rs:194-206 | true if and only if the labels of some cleaned non-empty entry are a suffix of the domain's labels |
| Bypass.MatchesExactly | bibavpn/src/domain_route.rs:194-206 | a name matches exactly if some non-empty cleaned entry is a label suffix of it |
| Bypass.SameNameExactly | bibavpn/src/domain_route.rs:431-434 | two names are the same exactly if their labels are, up to ASCII case and trailing dots |
| TextLaws.TrimExactly | bibavpn/src/domain_route.rs:200-200 | trim takes off all white space of Unicode at both ends and nothing else |
| TextLaws.TrimStartDotsExact | bibavpn/src/domain_route.rs:200-200 | leading dots, all of them and nothing else |
| TextLaws.ValidExactly | bibavpn/src/protocol.rs:144-160 | text is valid exactly if it encodes a sequence of scalar values (section 3 of RFC 3629) |
| TextLaws.LossyExactly | bibavpn/src/domain_route.rs:561-561 | lossy decoding gives valid text and leaves exactly valid text alone |
| TextLaws.BadChunkMaximal | bibavpn/src/domain_route.rs:561-561 | what is replaced is a maximal start of a character, or one byte |
| TextLaws.Ipv4Exactly | bibavpn/src/domain_route.rs:133-141 | a literal is an IPv4 address exactly if it is four numbers below 256 printed with dots |
| Routing.DomainRouteMap.RecordDnsResponse | bibavpn/src/domain_route.rs:58-109 | a response is learned only if it answers the pending query under a bypassed name, answer by answer |
| Routing.RoutingSound | bibavpn/src/domain_route.rs:214-238 | in every run a non-local address goes direct only if an earlier response with the pending id and name, bypassed then and now, listed it, and less than its time to live, taken between 30 and 3600 seconds, has passed |
| Routing.ListedGoesDirect | bibavpn/src/domain_route.rs:58-109 | given room and no live other name, an accepted response makes its addresses go direct exactly until the time to live of the last answer for them, taken between 30 and 3600 seconds, has passed |
| Routing.TableWithinCap | bibavpn/src/domain_route.rs:80-107 | in every run the map holds at most 20000 entries |
| Routing.LiveNameKept | bibavpn/src/domain_route.rs:80-93 | while a mapping is live no event changes its name or drops it |
| Routing.DecideExactly | bibavpn/src/domain_route.rs:214-238 | direct exactly for a local host, for a name of which a cleaned entry is a label suffix, and for an address with a live mapping to such a name; an empty list bypasses nothing |
| Routing.LocalExactly | bibavpn/src/domain_route.rs:133-189 | local is localhost in any case, or an address in the private ranges, written as numbers |
| Routing.PrivateV4Exactly | bibavpn/src/domain_route.rs:167-189 | the six IPv4 ranges as intervals |
| Routing.PrivateV6Exactly | bibavpn/src/domain_route.rs:143-165 | loopback, mapped private IPv4, fc00::/7 and fe80::/10 as intervals |
| Routing.ParseIpExactly | bibavpn/src/domain_route.rs:133-141 | an IPv4 literal is four printed numbers with dots, and gives those numbers |
| Routing.ExpiryExactly | bibavpn/src/domain_route.rs:99-104 | lifetimes in plain arithmetic |
| Routing.TrimmedExactly | bibavpn/src/domain_route.rs:82-84 | only a full table is rid of expired entries before it learns |
| Routing.LearnCounts | bibavpn/src/domain_route.rs:85-107 | with room and no live other name every answer is counted as taken |
| Calendar.CivilSuccessor | bibavpn/src/camouflage.rs:117-129 | every day gives a valid date and the next day its calendar successor |
| Calendar.CivilIsCounted | bibavpn/src/camouflage.rs:117-129 | the closed form agrees with counting days from 1 January 1970, in both directions |
| Calendar.WeekdayIsCounted | bibavpn/src/camouflage.rs:104-115 | the weekday index agrees with counting from a Thursday |
| Calendar.HttpDateFields | bibavpn/src/camouflage.rs:104-115 | the header (section 5.6.7 of RFC 9110) shows the counted weekday, date and time, which give the second back |
| Calendar.HttpDateWidth | bibavpn/src/camouflage.rs:104-115 | the header is 29 characters wide exactly up to the year 9999 |
| Calendar.HttpDateInjective | bibavpn/src/camouflage.rs:104-115 | different seconds have different headers |
| Calendar.DateShape | bibavpn/src/camouflage.rs:104-115 | the header character by character up to the year |
| Calendar.TimeShape | bibavpn/src/camouflage.rs:104-115 | the time of day in two digits each |
| Calendar.Rfc9110Example | bibavpn/src/camouflage.rs:193-235 | the example date of section 5.6.7 of RFC 9110 |

## Left out

- TLS, BoringSSL, X25519, BLAKE3, ChaCha20-Poly1305 and Argon2 internals, and key derivation: library code, only the AEAD round trip is assumed.
- AEAD failures on oversized plaintext: the cipher function is total, so the length error of the library is not modelled.
- Sockets, accept loops, HTTP and SOCKS handshakes, metrics, configuration precedence, invites, presets and applications: I/O and tables with easy members only.
- `parse_dns_query`, the pending-query table of the UDP relay and the domain lists of the process: they use the same name reader and matcher.
- UDP mux, address encodings of OPEN targets and pre-handshake budgets: further codecs and counters of the same kind as those proved.
- Mux negotiation with peers that have no flow control, the output and receive memory budgets, stream admission and the 256-stream cap of `tcp_mux_flow.rs`: the stream model is one negotiated stream between two honest ends.
- MuxFlow.ResetExactly: does not model the control queue of 512 records, which ends the stream or the session when it is full.
- Several clients that share the process-wide serial lock: the pool model has one client with any number of callers.
- No claim that a pool is never published after shutdown: only the fill task looks at shutdown under the slot lock.
- Jitter, ping periods and the 5-second close timeout of the bridge: a ping or a timeout may come at any step.
- A TCP write of the bridge that fails half way: the failing step writes nothing in the model.
- `PadRecordTo` padding of a ClientHello: the writer panics on it by design and the model excludes it by a precondition.
- Users.ValidateUsers: the checks on one label or token alone and the token digest are parameters of the model.
