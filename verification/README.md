# Verified model of the Iroh distribution carrier and capability discovery

This project models the protocols by which Elixir nodes find each other and carry Erlang distribution over Iroh
streams, and proves what they keep over every run.

- **The carrier.** A Rust daemon moves bytes between QUIC streams and the VM under credit flow control; an Erlang
  controller process frames handshake messages and packets on top of it. `Framing` and `Controller` are the framing and
  output pump of the controller, `Carrier` one stream of the daemon as interleaved atomic steps (API calls under the
  lock, the stream's runner between its locks and awaits), `Dist` the daemon's table as an object, `Table` many streams
  over that table, `Answers` what its callers are told, `Node` a controller and a daemon with the port calls between them
  in flight, `Receiving` and `Calls` who gets which frame and what a call achieves, `SendCount` and `Ending` what the
  statistics count and what an ending controller leaves behind, `Progress` the absence of deadlock, and `Pair` two ends
  and the network.
- **Capability discovery.** Signed announcements in deterministic CBOR, checked against durable sequence watermarks.
  `Octets`, `Text`, `Unicode`, `Cbor`, `CborMap`, `TwoFields`, `Messages`, `Codec` and `Envelopes` are the codec on values,
  `Readers` the decoder as it runs, `Items` the messages as any reader of CBOR sees them and `FieldMaps` what is not a
  message; `SequenceFile`, `SequenceStore`, `Reserving` and `FileStore` the watermark file, its runs over a failing disk,
  the numbers handed out, and the store object; `RateLimit`, `Records`, `Registry`, `RegistryRuns`, `Signing` and
  `LiveRegistry` the limiter, ranking, registry, its runs, the sender, and the registry object; `Verdicts`, `Revoking`, `Purging`,
  `Refusals`, `Sizes` and `RegistryExamples` what senders are told, who is heard, what queries purge, what refused
  messages change, how long messages get, and runs of note.
- **Smaller parts.** `Listener` routes stream events to controllers, `HandlerRegistry` indexes event subscribers,
  `PortClient` matches replies to requests, `Header` is the connection header, and `RoutingTable` with `RoutingLoops` the
  DHT routing-table export.

Code that updates state in place is a class or a loop proved against functions on values; the run-level results are about
those functions. Concurrency is a state machine whose steps are the source's atomic sections, with histories kept beside
the state so that conservation laws can be stated. A signature scheme is a relation between a key, a message and a
signature; a hash map's order, the clock, the disk's faults and the contents of the network are parameters.

What the proofs found about the code:

- The stream runner's closed-queue and invalid-credit exits cannot be reached, and the clamp on returned send credit never
  changes a value (`Carrier.ReceiveWindowsAgree`, `Carrier.SendWindowConserved`).
- A tick taken during the handshake is left waiting when the handshake completes, because completing it does not pump
  (`Node.HandshakeTickWaits`, with the exact condition in `Node.NoLostWakeup`).
- A tick that the pump takes up with fewer than four bytes of credit is never counted in the send statistics, even if it
  then leaves in one piece (`SendCount.TickCountedExact`, `SendCount.UncountedTickExample`); otherwise the count is exact
  (`SendCount.SendCountExact`).
- The closing re-encoding comparisons of both decoders never reject anything (`Codec.ReadCanonical`,
  `Envelopes.EnvelopeCanonical`).
- A write that fails after its rename leaves the file apart from memory until a write succeeds or the process starts
  again, and only such a write does (`SequenceStore.FailedWriteOnDisk`, `SequenceStore.FileAgreesExactly`,
  `SequenceStore.TornExample`); replay protection does not suffer, but a number can be skipped
  (`Reserving.SkipsExactly`, `Reserving.SkippedExample`), so that the first sequence need not be the documented 1.
- Authorizing an enrolled endpoint under a new name leaves its active record under the old one
  (`RegistryRuns.ReauthorizeKeepsNames`, `RegistryExamples.RenamedExample`).
- At the last value of the clock the rate limiter admits everything (`RateLimit.BurstAtClockEnd`).
- A notice of a new stream can overtake one that waits, and nothing mends the order later (`Listener.OrderExact`,
  `Listener.OvertakingExample`).
- The answer to a shutdown request leaves the other callers unanswered, and so does a request handled between the port's
  closing and its exit message (`PortClient.StopAnswersAllExactly`, `PortClient.ShutdownExample`,
  `PortClient.ClosedPortExample`).

Where the repository's documents and its code disagree, the model follows the code:

- IROH_CAPABILITY_PROTOCOL.md says a rejected message leaves the receiver unchanged. The code charges the limiter before it
  checks the signature, and under the signed-fleet policy may keep an enrolment. `Refusals.RefusalUnchanged` says exactly
  when nothing changes, `Refusals.ForgeryExample` is a run in which something does, and `Registry.RefusalKeepsContent`
  what never does.
- The same document restricts `equals` to booleans, integers and texts; the code also compares lists
  (`Records.EqualsMatchesLists`).
- IROH_DIST_PROTOCOL.md says no stream state remains when a controller ends. It remains exactly if the stream is live and
  no close was accepted (`Ending.ExitAbandons`): so after a refused send, a refused close or an oversize handshake message
  (`Ending.RefusedSendExample`, `Ending.RefusedCloseExample`, `Ending.OversizeExample`).

## Model

| member | source | states |
|---|---|---|
| `Framing.TakeOne` | src/iroh_dist_controller.erl:177-179 | a frame is taken only if the buffer starts with it whole: the buffer is the frame of the payload followed by the rest |
| `Framing.TakeOneInverse` | src/iroh_dist_controller.erl:39-46 | taking from a frame followed by anything returns its payload and what follows |
| `Framing.FrameLayout` | src/iroh_dist_controller.erl:39-46 | on the wire a frame is its length in two or four bytes, most significant first, and the payload |
| `Framing.ParseReencodes` | src/iroh_dist_controller.erl:51-56 | frames found and the residue re-encode to the bytes parsed, and the residue holds no whole frame |
| `Framing.ParseExact` | src/iroh_dist_controller.erl:51-56 | the frames of any packets, followed by bytes that hold no whole frame, parse to exactly those packets and those bytes |
| `Framing.FeedChunks` | src/iroh_dist_controller.erl:48-49 | feeding two chunks in turn, carrying the residue, finds the same frames as feeding them at once |
| `Framing.FeedAnyFragmentation` | src/iroh_dist_controller.erl:48-56 | for any fragmentation, successive feeds equal one feed of the concatenation |
| `Framing.FramesPrefixOf` | src/iroh_dist_controller.erl:39-56 | a stream of frames that is a prefix of another carries a prefix of its packets |
| `Controller.TickIsEmptyPacket` | src/iroh_dist_controller.erl:192-197 | the four zero bytes of a tick are the frame of the empty packet |
| `Controller.FlushRests` | src/iroh_dist_controller.erl:186-218 | the output pump terminates even if the VM always has more; it sends non-empty chunks of at most the port limit within its credit, and when it rests either output is left with the credit lowered or spent, or nothing is left to do |
| `Controller.FlushWritesWholePackets` | src/iroh_dist_controller.erl:186-218 | what the pump sent, followed by what it left, is what was left before, the tick that was due, and the VM's packets whole and in order, whatever the credit splits |
| `Controller.FlushByMoves` | src/iroh_dist_controller.erl:186-218 | cutting the pump at its port and VM calls, so that other processes can run between them, does not change what it computes |
| `Carrier.StepKeepsInv` | native/iroh_discovery/src/dist.rs:189-243 | every API call, every step of the stream's runner and every lock it takes keeps the accounts of both credits, the byte streams and the event order |
| `Carrier.SendWindowConserved` | native/iroh_discovery/src/dist.rs:348-358 | in every interleaving, free send credit, queued bytes and bytes in the runner's hands are one window, so the clamp on returned credit never loses any |
| `Carrier.ReceiveWindowsAgree` | native/iroh_discovery/src/dist.rs:210-232 | the shared receive credit is the private one plus grants and reads on their way; so the invalid-credit exit and the closed-queue branch cannot be reached and neither subtraction goes below zero |
| `Carrier.WritesInOrder` | native/iroh_discovery/src/dist.rs:345-371 | bytes written, in hand and queued are the accepted payloads in order, and a local close finishes the stream only after everything accepted before it |
| `Carrier.EventsWellOrdered` | native/iroh_discovery/src/dist.rs:308-398 | a stream's events are one opening, then data and credit, then at most one Closed, which comes only once its table entry is gone; data events carry what was read, in order |
| `Answers.SendAnswer` | native/iroh_discovery/src/dist.rs:189-208 | over every interleaving, each answer to send with exactly its circumstances in terms of what was sent and returned so far, the window of 262144 bytes and the queue of 64; a refused call changes nothing, an accepted one is queued and charged |
| `Answers.CreditAnswer` | native/iroh_discovery/src/dist.rs:210-232 | likewise for credit, which may not exceed what was read and not granted back |
| `Answers.CloseAnswer` | native/iroh_discovery/src/dist.rs:234-243 | likewise for close: accepted if and only if the stream is in the table and fewer than 64 commands are queued |
| `Answers.ReasonTold` | native/iroh_discovery/src/dist.rs:345-398 | the reason a stream is reported closed with is something that happened to it in that run, and never an invalid grant |
| `Dist.Dist.Install` | native/iroh_discovery/src/dist.rs:294-307 | a new stream gets the next id and two full windows, and no other entry changes |
| `Dist.Dist.Send` | native/iroh_discovery/src/dist.rs:189-208 | the table entry and the answer are those of the protocol's send on that entry, errors included, and no other entry changes |
| `Dist.Dist.GrantCredit` | native/iroh_discovery/src/dist.rs:210-232 | likewise for granting receive credit |
| `Dist.Dist.CloseStream` | native/iroh_discovery/src/dist.rs:234-243 | likewise for close |
| `Dist.Dist.ReturnSendCredit` | native/iroh_discovery/src/dist.rs:352-354 | the runner's critical section that returns send credit, on that entry only |
| `Dist.Dist.ChargeReceived` | native/iroh_discovery/src/dist.rs:376-378 | the runner's critical section that charges received bytes, on that entry only |
| `Dist.Dist.RemoveStream` | native/iroh_discovery/src/dist.rs:387-391 | the entry is gone and no other changes |
| `Dist.IdsUnique` | native/iroh_discovery/src/dist.rs:296-297 | stream ids do not repeat within 2^64 - 1 installations, and the next one repeats the first |
| `Table.SectionIsStep` | native/iroh_discovery/src/dist.rs:189-243 | a critical section that leaves in the table the entry the protocol's step leaves, and no other change, is that step of the table |
| `Table.StreamsApart` | native/iroh_discovery/src/dist.rs:294-307 | in every interleaving of any number of streams, up to the first repeated id, each stream seen by itself is in a reachable state of the one-stream protocol |
| `Table.TableWindows` | native/iroh_discovery/src/dist.rs:348-378 | so both window laws hold of every live entry of the table |
| `Header.HeaderRoundTrip` | native/iroh_discovery/src/dist.rs:446-454 | a connection header of two valid node names is read back, leaving exactly what follows |
| `Header.HeaderSound` | native/iroh_discovery/src/dist.rs:406-444 | a header that is read has two valid node names and its bytes were the header's encoding |
| `Header.HeaderLayout` | native/iroh_discovery/src/dist.rs:446-454 | on the wire the header is ERLDIST1, then the connecting and the target node, each behind its length in two bytes |
| `Text.NodeNameGrammar` | native/iroh_discovery/src/lib.rs:573-586 | a node name is accepted if and only if it has the documented grammar |
| `Text.NodeNameCharacters` | native/iroh_discovery/src/lib.rs:573-586 | the characters of the two halves are letters, digits, and underscore or dot, and hyphen |
| `Unicode.Utf8Exact` | native/iroh_discovery/src/lib.rs:925-928 | the texts accepted are exactly the UTF-8 encodings of sequences of Unicode scalar values, as RFC 3629 defines them |
| `Node.StepKeepsInv` | src/iroh_dist_controller.erl:77-226 | every step of a controller, its daemon and the port calls between them keeps the credit books and the byte streams |
| `Node.SendNeverExhausted` | src/iroh_dist_controller.erl:211-226 | whenever the controller asks for a send on a live stream its credit is at most the daemon's, so the only refusal left is a full queue |
| `Node.GrantNeverInvalid` | src/iroh_dist_controller.erl:144-152 | a controller that grants each data event back once is never told the grant is invalid |
| `Node.SendCreditConserved` | src/iroh_dist_controller.erl:153-155 | controller credit, credit events in transit and bytes queued or in hand add up to 256 KiB in every interleaving |
| `Node.CallsComplete` | src/iroh_dist_controller.erl:228-229 | a port call in progress can always be served or resumed, never both |
| `Node.NoLostWakeup` | src/iroh_dist_controller.erl:186-209 | at rest, output left behind means bytes are with the daemon or a credit event is due; otherwise nothing is ready, the VM owes a notification, and a tick waits exactly if it came during the handshake and nothing was pumped since |
| `Node.HandshakeTickWaits` | src/iroh_dist_controller.erl:117-125 | completing the handshake does not pump: a tick waits afterwards if and only if one was taken before it |
| `Node.HandshakeTickExample` | src/iroh_dist_controller.erl:117-125 | such a run exists |
| `SendCount.SendCountExact` | src/iroh_dist_controller.erl:186-226 | in every run the send count that getstat reports, plus the ticks taken up with fewer than four bytes of credit, is the number of handshake messages, packets and ticks put out |
| `SendCount.TickCountedExact` | src/iroh_dist_controller.erl:192-197 | a tick is counted if and only if there are four bytes of credit when the pump takes it up |
| `SendCount.UncountedTickExample` | src/iroh_dist_controller.erl:192-218 | a run in which a tick leaves in one piece and is not counted |
| `Ending.ExitAbandons` | src/iroh_dist_controller.erl:85-136 | whenever a controller ends, its stream is left running with no close queued if and only if the runner is live and no close of the controller was accepted |
| `Ending.AbandonedForGood` | src/iroh_dist_controller.erl:249-251 | after that nobody queues a close, whatever the daemon does |
| `Ending.EndsExactly` | src/iroh_dist_controller.erl:77-159 | what ends a controller, and nothing else does: being killed, the stream's Closed event, the answer to a close, a refused chunk of the pump, a handshake message of 65536 bytes or more, and completing the handshake twice |
| `Ending.RefusedSendExample` | src/iroh_dist_controller.erl:211-217 | a run in which a send refused by a full queue leaves the stream behind |
| `Ending.RefusedCloseExample` | src/iroh_dist_controller.erl:249-251 | a run in which a refused close does |
| `Ending.OversizeExample` | src/iroh_dist_controller.erl:39-42 | a run in which a handshake message of 65536 bytes does |
| `Node.OutputIntact` | src/iroh_dist_controller.erl:186-226 | bytes accepted by the daemon followed by those unsent are whole handshake frames, then whole packets and ticks, in order |
| `Node.InputIntact` | src/iroh_dist_controller.erl:161-184 | bytes taken in are the handshake replies, then the packets given to the VM, then a residue; no whole frame is withheld from a waiting reader or the VM |
| `Receiving.WaitsForReader` | src/iroh_dist_controller.erl:108-116 | in every run, a controller in the handshake waits for exactly the reader that asked last and was neither answered nor called off, and then every whole frame that came in has been handed out |
| `Receiving.FirstFrameAnswers` | src/iroh_dist_controller.erl:161-175 | however its bytes are cut up and whatever else happens, a blocked reader gets the first whole frame that comes in, and nothing else is handed out |
| `Calls.CloseEnds` | src/iroh_dist_controller.erl:130-133 | from every reachable state with the runner live and fewer than 64 commands queued, close, its answer and the runner's own steps lead to a stream that is gone, whose last event is the local Closed, and that has written exactly what was accepted before the close |
| `Calls.GreetingGoesOut` | src/iroh_dist_controller.erl:104-107 | a handshake message within the credit is accepted: its two length bytes and its payload behind everything before, with the credit charged and the message counted |
| `Calls.GreetingRefused` | src/iroh_dist_controller.erl:220-226 | one beyond the credit changes nothing |
| `Calls.DataGrantedBack` | src/iroh_dist_controller.erl:144-152 | data taken in is granted back in full before the controller goes on |
| `Pair.EndToEnd` | src/iroh_dist_controller.erl:108-122 | in every interleaving of two controllers, two daemons and the network, which may deliver part of a write before it completes or fails, handshake replies are the sender's messages in order and the VM gets a prefix of the sender's packets, whatever the chunking |
| `Pair.DrainedDelivery` | src/iroh_dist_controller.erl:161-184 | once everything has crossed, the receiver has exactly the sender's messages and packets and no byte is left over |
| `Pair.MirrorReachable` | src/iroh_dist_controller.erl:77-98 | the pair is symmetric, so both results hold in the other direction |
| `Progress.DriveSettles` | native/iroh_discovery/src/dist.rs:345-398 | left to itself with writes completing, the runner empties its queue or ends, within five steps a queued command |
| `Progress.SettleDelivers` | native/iroh_discovery/src/dist.rs:347-358 | a live stream with no close queued then has everything accepted written and all its credit announced |
| `Progress.CloseCompletes` | native/iroh_discovery/src/dist.rs:365-398 | once a close is queued the stream ends with its local Closed event, having written exactly what was accepted before the close |
| `Progress.OutputUnblocks` | src/iroh_dist_controller.erl:186-218 | no deadlock: from every reachable state with output left at rest, the runner's own steps lead to one in which a credit event waits, and credit held and waiting is the whole window |
| `Progress.PumpComesToRest` | src/iroh_dist_controller.erl:186-218 | whatever other processes do between its steps and whatever the VM offers, a controller that is pumping or calling the port comes to rest within a bounded number of its own steps, and until then one of them is possible |
| `Cbor.HeadInverse` | native/iroh_discovery/src/lib.rs:729-750 | a head is read back as its number |
| `Cbor.HeadSound` | native/iroh_discovery/src/lib.rs:982-1014 | only the shortest form of a number is read: a head that is read is the encoder's |
| `Cbor.TextInverse` | native/iroh_discovery/src/lib.rs:717-721 | a text is read back |
| `Cbor.TextSound` | native/iroh_discovery/src/lib.rs:925-928 | a text that is read was encoded as the encoder does |
| `Cbor.OrdersAgree` | native/iroh_discovery/src/lib.rs:709-711 | the length-first order of encoded text keys is the bytewise order of their encodings (sections 4.2.3 and 4.2.1 of RFC 8949), and the length-first order of the texts |
| `Cbor.SortKeysCorrect` | native/iroh_discovery/src/lib.rs:699-701 | sorting keeps the keys and puts distinct ones in strictly increasing order |
| `CborMap.EncodeMapCanonical` | native/iroh_discovery/src/lib.rs:699-707 | a map is written as its head and its entries in the one increasing order of its keys, whatever order the fields were listed in |
| `CborMap.MapSound` | native/iroh_discovery/src/lib.rs:935-947 | a field loop that succeeds has read exactly the canonical encoding of the map it collected |
| `CborMap.MapRoundTrip` | native/iroh_discovery/src/lib.rs:699-707 | the canonical encoding of a map is read back by the field loop |
| `CborMap.FieldsBounded` | native/iroh_discovery/src/lib.rs:797-821 | a field loop uses up two bytes a turn, so it fails if more fields are claimed than half the bytes |
| `TwoFields.PairSound` | native/iroh_discovery/src/lib.rs:858-877 | a two-field map that is read was encoded canonically from the values found |
| `TwoFields.PairInverse` | native/iroh_discovery/src/lib.rs:688-693 | a two-field map is read back |
| `Messages.CapabilityInverse` | native/iroh_discovery/src/lib.rs:672-686 | a capability value within the reader's limits is read back |
| `Messages.CapabilitySound` | native/iroh_discovery/src/lib.rs:949-976 | a capability value that is read was encoded canonically and is within the limits |
| `Messages.CapabilitiesInverse` | native/iroh_discovery/src/lib.rs:663-670 | a capability map within the limits is read back |
| `Messages.CapabilitiesSound` | native/iroh_discovery/src/lib.rs:879-893 | a capability map that is read was encoded canonically and is within the limits |
| `Messages.LoadSound` | native/iroh_discovery/src/lib.rs:858-877 | a load that is read was encoded canonically |
| `Messages.LoadInverse` | native/iroh_discovery/src/lib.rs:644-650 | a load is read back |
| `Codec.ValueSound` | native/iroh_discovery/src/lib.rs:799-820 | each field of a message is read exactly from its canonical encoding, with its own checks |
| `Codec.AssembleSound` | native/iroh_discovery/src/lib.rs:822-847 | the fields that make a message are exactly that message's fields: a surplus or missing one is refused |
| `Codec.ReadCanonical` | native/iroh_discovery/src/lib.rs:848-856 | what the reader accepts already equals its re-encoding, so the closing comparison never rejects |
| `Codec.MessageExact` | native/iroh_discovery/src/lib.rs:782-856 | bytes decode to a message if and only if they are its encoding, its key is a key and its capability lists are within the reader's limits |
| `Codec.FieldLoopBounded` | native/iroh_discovery/src/lib.rs:797-821 | a message that claims more fields than half its bytes is refused |
| `FieldMaps.FieldMapVerdict` | native/iroh_discovery/src/lib.rs:782-856 | for every canonical map of known, well-formed fields: refused as an unsupported version if and only if it has another version than 1, as an invalid record if and only if its kind is neither of the two, a message if and only if its fields are exactly that message's, and malformed otherwise |
| `Items.AnnouncementItem` | native/iroh_discovery/src/lib.rs:628-651 | an independent reader of CBOR data items finds in an announcement a map of eleven fields, each under its literal key and in its RFC 8949 type, with capabilities and load as maps in it |
| `Items.WithdrawalItem` | native/iroh_discovery/src/lib.rs:653-661 | and in a withdrawal a map of five |
| `Items.EnvelopeItem` | native/iroh_discovery/src/lib.rs:688-697 | and in an envelope the body and the signature as byte strings |
| `Envelopes.EnvelopeCanonical` | native/iroh_discovery/src/lib.rs:773-780 | the same of the envelope's closing comparison |
| `Envelopes.EnvelopeExact` | native/iroh_discovery/src/lib.rs:752-780 | bytes decode to an envelope if and only if they are its encoding |
| `Readers.Reader.Take` | native/iroh_discovery/src/lib.rs:1016-1021 | the next bytes and the rest, or an error past the end |
| `Readers.Reader.Head` | native/iroh_discovery/src/lib.rs:982-1014 | the cursor reads a head as the parser on values does, and stops where it does |
| `Readers.Reader.CanonicalKey` | native/iroh_discovery/src/lib.rs:935-947 | likewise for a key after the previous one, and what it remembers is the key's encoding |
| `Readers.Reader.ReadCapability` | native/iroh_discovery/src/lib.rs:949-976 | likewise for a capability value |
| `Readers.Reader.ReadLoad` | native/iroh_discovery/src/lib.rs:858-877 | likewise for a load |
| `Readers.Reader.ReadCapabilities` | native/iroh_discovery/src/lib.rs:879-893 | likewise for a capability map, one turn of the loop for each entry |
| `Readers.Reader.ReadFields` | native/iroh_discovery/src/lib.rs:797-821 | likewise for the field loop of a message |
| `Readers.Decode` | native/iroh_discovery/src/lib.rs:782-856 | the decoder as it runs computes the specified result |
| `Readers.Open` | native/iroh_discovery/src/lib.rs:752-780 | so does the envelope decoder |
| `SequenceFile.OpenSerialized` | native/iroh_discovery/src/lib.rs:129-167 | a store reopens to exactly the watermarks it wrote |
| `SequenceFile.OpenExact` | native/iroh_discovery/src/lib.rs:129-157 | a file opens to given watermarks if and only if it lists them once each as 40-byte records, at most 1024, with valid keys and positive sequences |
| `SequenceFile.RecordLayout` | native/iroh_discovery/src/lib.rs:159-166 | on disk a record is the 32 bytes of the endpoint and its sequence in eight, most significant first |
| `SequenceStore.StepKeepsInv` | native/iroh_discovery/src/lib.rs:169-191 | every advance, reservation, failed or interrupted write, crash, power loss and reopening keeps each possible file content readable and above every accepted sequence |
| `SequenceStore.ReloadKeepsAccepted` | native/iroh_discovery/src/lib.rs:174-190 | whatever a crash leaves behind reopens with no watermark below a sequence ever accepted |
| `SequenceStore.AlwaysReopens` | native/iroh_discovery/src/lib.rs:129-157 | a stopped process can always open its store again |
| `SequenceStore.NeverAcceptedTwice` | native/iroh_discovery/src/lib.rs:236-244 | over all crashes each endpoint's accepted sequences strictly increase, so no reserved number is handed out twice |
| `SequenceStore.ReplayRefused` | native/iroh_discovery/src/lib.rs:174-177 | advancing to an accepted sequence or below it is refused as stale and changes nothing |
| `SequenceStore.FailedWriteOnDisk` | native/iroh_discovery/src/lib.rs:174-190 | after any advance, file and memory agree if and only if the write succeeded, or nothing was renamed and they agreed before; whatever the file held |
| `SequenceStore.FileAgreesExactly` | native/iroh_discovery/src/lib.rs:129-234 | in every run, with any crashes, restarts and failing writes, the file agrees with the open store if and only if no write since the last start or success failed after its rename |
| `SequenceStore.TornExample` | native/iroh_discovery/src/lib.rs:210-234 | a run in which a write that fails after its rename, followed by one that fails before its own, leaves the file with a sequence that memory does not have |
| `Reserving.ReserveIsNext` | native/iroh_discovery/src/lib.rs:237-244 | over every run from a missing file in which no write is cut short after its rename, reserve_next hands out the successor of the last sequence accepted, or fails exactly if there is none, the store is full or the write fails |
| `Reserving.ReservationsCount` | native/iroh_discovery/src/lib.rs:237-244 | so the sequences reserved for an endpoint are 1, 2, 3 and so on, over all restarts, failures and power losses of such runs |
| `Reserving.SkipsExactly` | native/iroh_discovery/src/lib.rs:237-244 | over every run at all, a number handed out is above the last one accepted, and is its successor if and only if the last start since then did not open a file with a higher one |
| `Reserving.SkippedExample` | native/iroh_discovery/src/lib.rs:237-244 | a run in which a write cut short after its rename makes the first number handed out 2 |
| `FileStore.ReadFile` | native/iroh_discovery/src/lib.rs:129-157 | the loop over records computes the specified result |
| `FileStore.FileSequenceStore.Buffer` | native/iroh_discovery/src/lib.rs:159-166 | the loop fills the specified bytes, in key order |
| `FileStore.FileSequenceStore.Advance` | native/iroh_discovery/src/lib.rs:174-190 | memory, disk and answer are the specified ones; a failed write is taken back in memory |
| `FileStore.FileSequenceStore.ReserveNext` | native/iroh_discovery/src/lib.rs:237-244 | likewise for a reservation |
| `Records.TextsDistinct` | native/iroh_discovery/src/lib.rs:599-601 | the set-size test on a text list holds exactly of lists without repetition |
| `Records.ValidIsReadable` | native/iroh_discovery/src/lib.rs:547-563 | what validation accepts, the decoder can read |
| `Records.CapabilityNameGrammar` | native/iroh_discovery/src/lib.rs:588-594 | capability names are one lower-case letter and up to 63 lower-case letters, digits, underscores, dots and hyphens |
| `Records.AnnouncementLimits` | native/iroh_discovery/src/lib.rs:547-563 | for each field of a valid announcement, exactly the values it may have instead: sequence, time to live, name, load and capabilities with their documented limits |
| `Records.SequencesPositive` | native/iroh_discovery/src/lib.rs:565-571 | sequences of valid messages start at 1, and a withdrawal needs nothing else |
| `Records.MatchesExact` | native/iroh_discovery/src/lib.rs:495-507 | a predicate matches if and only if the peer announces that very value, a number at least that large, or a list that holds that text |
| `Records.AtLeastThreshold` | native/iroh_discovery/src/lib.rs:498-501 | the announced number is the threshold of at-least: it matches, the next number does not, announcing more or asking for less loses nothing, and nothing but a number matches |
| `Records.BeforeTransitive` | native/iroh_discovery/src/lib.rs:509-514 | ranking by cross-multiplied load ratio, free capacity and endpoint is transitive on loads with capacity |
| `Records.BeforeTotal` | native/iroh_discovery/src/lib.rs:509-514 | of two different endpoints one ranks before the other |
| `Records.BeforeIrreflexive` | native/iroh_discovery/src/lib.rs:509-514 | no record ranks before itself |
| `Records.BeforeMeans` | native/iroh_discovery/src/lib.rs:509-514 | the cross-multiplied comparison ranks by the exact load ratio, then by more free capacity, then by endpoint |
| `Records.RankingUnique` | native/iroh_discovery/src/lib.rs:416 | a set of records has one ranked list |
| `Records.EqualsMatchesLists` | native/iroh_discovery/src/lib.rs:495-497 | an announcement matches a list-valued equals if and only if it carries that very list |
| `RateLimit.RunDecides` | native/iroh_discovery/src/lib.rs:470-483 | for a clock that does not go back, the bounded queue admits a message if and only if fewer than ten earlier admissions still count |
| `RateLimit.WindowHolds` | native/iroh_discovery/src/lib.rs:470-483 | no 1000 ms window holds more than ten admissions, unless it ends at the last value of the clock |
| `RateLimit.SaturationExact` | native/iroh_discovery/src/lib.rs:474 | the saturating test is the exact one if and only if the clock is not at its last value or the window ends in range |
| `RateLimit.BurstAtClockEnd` | native/iroh_discovery/src/lib.rs:470-483 | at the last value of the clock any number of messages is admitted |
| `Registry.LifetimeExact` | native/iroh_discovery/src/lib.rs:485-492 | a record lives for exactly its time to live, cut off only by the last value of the clock |
| `Registry.RefusalKeepsContent` | native/iroh_discovery/src/lib.rs:338-396 | a refused message changes no record and no watermark, touches the disk only if a write was cut short after its rename, enrols its endpoint if and only if it is a valid signed announcement for this fleet, the policy allows it and there is room, and brings its endpoint's limiter queue up to date if and only if the fleet is right and the endpoint is then enrolled |
| `RegistryRuns.StepKeepsInv` | native/iroh_discovery/src/lib.rs:307-493 | every message, administrative call, query, failing write and restart keeps the registry's invariant |
| `RegistryRuns.NewIsReachable` | native/iroh_discovery/src/lib.rs:308-317 | a new registry over a missing watermark file, with any authorization table, is where such runs start |
| `RegistryRuns.RecordsCurrent` | native/iroh_discovery/src/lib.rs:377-387 | an active record is valid, of this fleet and its own endpoint, which is enrolled, and its sequence is the stored watermark |
| `RegistryRuns.RecordsRanked` | native/iroh_discovery/src/lib.rs:509-514 | so every record can be ranked and free capacity never goes below zero |
| `RegistryRuns.TablesBounded` | native/iroh_discovery/src/lib.rs:262-270 | whatever arrives, names, watermarks, records and queues stay within 1024, and each queue within ten |
| `RegistryRuns.EnrolmentNeverLimited` | native/iroh_discovery/src/lib.rs:364-374 | the rate check during enrolment cannot fail |
| `RegistryRuns.LimiterExact` | native/iroh_discovery/src/lib.rs:470-483 | in every reachable state a message is admitted if and only if fewer than ten admissions of its endpoint still count |
| `RegistryRuns.RateWindow` | native/iroh_discovery/src/lib.rs:470-483 | between enrolments, an endpoint's eleventh admission comes at least a window after its first, except at the last value of the clock |
| `RegistryRuns.ReplayRefused` | native/iroh_discovery/src/lib.rs:463-468 | once a sequence is accepted, no message of that endpoint with it or a lower one is accepted again, over restarts and revocations, and the refusal changes no record or watermark |
| `RegistryRuns.AcceptedOnce` | native/iroh_discovery/src/lib.rs:338-396 | the same bytes are accepted at most once, over any run |
| `RegistryRuns.AdmitKeepsNames` | native/iroh_discovery/src/lib.rs:364-381 | messages keep active records under the names in the table |
| `RegistryRuns.ReauthorizeKeepsNames` | native/iroh_discovery/src/lib.rs:334-336 | authorizing again keeps them so if and only if the endpoint has no active record or keeps its name |
| `RegistryExamples.RenamedExample` | native/iroh_discovery/src/lib.rs:334-336 | a run in which a record stays active under a name its endpoint no longer has |
| `Revoking.AuthorizeExact` | native/iroh_discovery/src/lib.rs:262-270 | authorizing succeeds if and only if the name is a node name and the endpoint is known or one of fewer than 1024; then it has that name and nothing else changes |
| `Revoking.RevokeExact` | native/iroh_discovery/src/lib.rs:328-332 | revoking takes away the endpoint's name, record and queue; its watermark and everything of every other endpoint stay |
| `Revoking.RevocationHolds` | native/iroh_discovery/src/lib.rs:345-351 | under the strict policy, in every run after a revocation without a new authorization or a restart, the endpoint has no name and no record and each of its messages is refused as unauthorized and changes nothing |
| `Verdicts.VerdictExact` | native/iroh_discovery/src/lib.rs:345-396 | for every decoded message and reachable registry, each answer of receive with exactly the circumstances under which it is given |
| `Verdicts.OversizeRefused` | native/iroh_discovery/src/lib.rs:338-341 | messages over 16384 bytes are refused unread |
| `Verdicts.DecodedExact` | native/iroh_discovery/src/lib.rs:338-343 | exactly the bytes that are heard at all: at most 16384 of them, the envelope of an encoded message that can be decoded |
| `RegistryRuns.AnswerUnique` | native/iroh_discovery/src/lib.rs:403-433 | there is one answer to a query, whatever the order of the hash map |
| `RegistryRuns.AnswerMeans` | native/iroh_discovery/src/lib.rs:403-416 | an announcement is in the answer if and only if it is its endpoint's record, has not outlived its time, is of a peer with capacity to spare, and has what every predicate asks for |
| `Purging.ReceiveAlike` | native/iroh_discovery/src/lib.rs:338-396 | registries that differ only in expired records give every message the same answer and still differ only so |
| `Purging.PurgesInvisible` | native/iroh_discovery/src/lib.rs:485-493 | leaving every purging query out of a run is a run, in which every message and administrative call gets the same answer and every later query has the same result |
| `Signing.SignedDecodes` | native/iroh_discovery/src/lib.rs:516-545 | what a genuine signer signs decodes at every receiver to the same message with a verified signature |
| `Signing.SignedBytes` | native/iroh_discovery/src/lib.rs:355-360 | what is signed and what is verified is the protocol's name, a zero byte and the body |
| `Signing.SignExact` | native/iroh_discovery/src/lib.rs:516-545 | signing succeeds with exactly the envelope of a valid message of the signer's own endpoint, if that takes no more than 16384 bytes |
| `Signing.AdmitExact` | native/iroh_discovery/src/lib.rs:338-396 | a message of an enrolled endpoint is accepted if and only if fleet, rate, signature, content, name, sequence and store allow it |
| `Signing.NewcomerExact` | native/iroh_discovery/src/lib.rs:364-376 | a message of an unknown endpoint is accepted if and only if it enrols the endpoint, is not limited, and the store can record its sequence |
| `Signing.PublishedIsHeld` | native/iroh_discovery/src/lib.rs:516-545 | a signed, fresh message of an enrolled endpoint within the rate is accepted; the receiver then holds that record, or none after a withdrawal, with the watermark on disk |
| `Signing.PublishedStaysActive` | native/iroh_discovery/src/lib.rs:377-387 | authentic publication: the announcement is active until exactly its time to live has passed |
| `Signing.UnverifiedRefused` | native/iroh_discovery/src/lib.rs:352-362 | tampering and impersonation: a message that does not verify is refused and changes exactly the limiter queue of its endpoint, if that is enrolled and the fleet is right |
| `Signing.StaleRefused` | native/iroh_discovery/src/lib.rs:463-468 | replay: an otherwise acceptable message not above the watermark is refused as stale and changes nothing but the limiter queue |
| `Signing.BareMessageFits` | native/iroh_discovery/src/lib.rs:516-545 | every withdrawal and every announcement without capabilities fits the size limit: signing it succeeds if and only if it is valid and of the signer's endpoint |
| `Sizes.ValidMessageBounded` | native/iroh_discovery/src/lib.rs:547-686 | every valid message encodes to at most 3,016,968 bytes, and to at most 3144 if it carries no capabilities |
| `Refusals.RefusalExact` | native/iroh_discovery/src/lib.rs:345-396 | everything a refused message does: names, queues and disk afterwards, the disk changing if and only if a write was cut short after its rename that would otherwise have been accepted |
| `Refusals.RefusalUnchanged` | native/iroh_discovery/src/lib.rs:338-396 | in every reachable state before the clock's last value, a refused message leaves the registry as it was if and only if it does not decode, is of another fleet, is of an enrolled endpoint over its rate, or is of an unknown endpoint it does not enrol |
| `Refusals.RefusalUnchangedAtClockEnd` | native/iroh_discovery/src/lib.rs:470-483 | the same at the clock's last value, where the limiter refuses nobody: an enrolled endpoint's queue must hold just that time already, and no write or the same write have been cut short |
| `Refusals.ForgeryUnchanged` | native/iroh_discovery/src/lib.rs:352-360 | a message that does not verify leaves the registry as it was if and only if it is of another fleet, its endpoint is not enrolled, or that endpoint is over its rate |
| `Refusals.ForgeryExample` | native/iroh_discovery/src/lib.rs:352-360 | a run in which a forged withdrawal is refused and changes the registry |
| `LiveRegistry.LiveRegistry.CheckRate` | native/iroh_discovery/src/lib.rs:470-483 | the loop over the queue's front computes the specified queue and answer |
| `LiveRegistry.LiveRegistry.Receive` | native/iroh_discovery/src/lib.rs:338-396 | the registry after a message, and the answer, are the specified ones, through both decoders and every branch |
| `LiveRegistry.LiveRegistry.Revoke` | native/iroh_discovery/src/lib.rs:328-332 | the registry after the call is the specified one, in which the endpoint has lost its name, record and queue and nothing else changed |
| `LiveRegistry.LiveRegistry.Expire` | native/iroh_discovery/src/lib.rs:485-493 | the records kept are exactly the unexpired ones |
| `LiveRegistry.LiveRegistry.FindActive` | native/iroh_discovery/src/lib.rs:398-401 | an endpoint's record if it has an unexpired one |
| `LiveRegistry.LiveRegistry.Find` | native/iroh_discovery/src/lib.rs:403-433 | the answer is exactly the unexpired, non-full, matching records, each once, in strictly ascending rank, and each peer has the announced address, sequence and capabilities; no-match exactly if there are none |
| `Listener.StreamsInOrder` | src/iroh_dist.erl:74-125 | on every stream, whenever it is bound and however often rebound, what controllers were sent followed by what is held is what arrived, in order; a bound stream holds nothing |
| `Listener.SentToTheRightProcess` | src/iroh_dist.erl:76-107 | every event goes to the controller its stream is bound to, held events to the one just bound, and every notice to the acceptor that registered last |
| `Listener.ControllerGetsAll` | src/iroh_dist.erl:78-108 | from its bind until its death or another bind of the stream, a controller is sent exactly what was held and then what arrives, in order, and nobody else is sent any of it |
| `Listener.NoticesOnce` | src/iroh_dist.erl:91-125 | every notice of a new stream is queued or was sent to an acceptor, exactly once |
| `Listener.NoticeKeepsOrder` | src/iroh_dist.erl:91-98 | a notice keeps the order of arrival if and only if it is queued or nothing waits |
| `Listener.OthersKeepOrder` | src/iroh_dist.erl:74-125 | every other message keeps it |
| `Listener.OrderExact` | src/iroh_dist.erl:74-125 | over every mailbox that announces no stream twice, notices sent and queued are in the order of arrival if and only if none came while an acceptor was known and others waited |
| `Listener.OvertakingExample` | src/iroh_dist.erl:91-125 | a notice does overtake another |
| `HandlerRegistry.IndexExact` | lib/elixir_rpc/p2p/node/handler_registry.ex:72-200 | over every run subscriptions and monitors are exact inverses, no key holds an empty list and none a process twice |
| `HandlerRegistry.DispatchOnce` | lib/elixir_rpc/p2p/node/handler_registry.ex:106-112 | an event is sent exactly once to each registered process and to no other |
| `HandlerRegistry.DeathNeverFails` | lib/elixir_rpc/p2p/node/handler_registry.ex:165-181 | a death notice of any reference ever created, even a stale one, finds its clause |
| `HandlerRegistry.RegisterMeans` | lib/elixir_rpc/p2p/node/handler_registry.ex:72-83 | registering adds exactly that registration, and none if it is there |
| `HandlerRegistry.UnregisterMeans` | lib/elixir_rpc/p2p/node/handler_registry.ex:145-163 | unregistering takes away exactly that registration |
| `HandlerRegistry.DeathMeans` | lib/elixir_rpc/p2p/node/handler_registry.ex:165-181 | a death notice takes away exactly the registration its reference was created for |
| `HandlerRegistry.CleanupMeans` | lib/elixir_rpc/p2p/node/handler_registry.ex:183-200 | cleaning up a node takes away exactly its registrations |
| `PortClient.AnsweredAtMostOnce` | lib/elixir_rpc/iroh_discovery/port.ex:132-150 | request numbers are never reused, no request is answered twice, and each reply goes to its own caller, in any order of responses, timeouts, late responses and exit |
| `PortClient.PendingExact` | lib/elixir_rpc/iroh_discovery/port.ex:171-184 | the pending table is exactly the requests taken and not answered |
| `PortClient.FirstOutcome` | lib/elixir_rpc/iroh_discovery/port.ex:171-251 | a caller is told the first of response, timeout and exit that happens after its request, and exactly that |
| `PortClient.ExitAnswersAll` | lib/elixir_rpc/iroh_discovery/port.ex:186-193 | when the port's exit is handled every request ever taken has been answered |
| `PortClient.ShutdownLeaves` | lib/elixir_rpc/iroh_discovery/port.ex:236-251 | the answer to shutdown stops the server, and leaves unanswered exactly the other pending requests |
| `PortClient.StopAnswersAllExactly` | lib/elixir_rpc/iroh_discovery/port.ex:132-251 | whenever the server stops, every caller has been answered if and only if it stops on the port's exit, or nothing is pending besides the request that the stopping response names |
| `PortClient.StopsExactly` | lib/elixir_rpc/iroh_discovery/port.ex:132-251 | the server stops if and only if the port's exit is handled, a request meets a closed port, or the response names a pending shutdown; a timeout never stops it |
| `PortClient.ShutdownExample` | lib/elixir_rpc/iroh_discovery/port.ex:236-251 | a run in which the answer to shutdown leaves another caller without one |
| `PortClient.ClosedPortExample` | lib/elixir_rpc/iroh_discovery/port.ex:140-145 | a run in which a request handled after the port closed, before its exit message, stops the server and does |
| `RoutingTable.RoundTrip` | native/p2p_bridge/src/dht_state.rs:25-51 | entries within the limits are read back, whatever follows them |
| `RoutingTable.TableLayout` | native/p2p_bridge/src/dht_state.rs:25-51 | on the wire a table is L2DT, version 1, the number of entries in four bytes, and the entries |
| `RoutingTable.EntryLayout` | native/p2p_bridge/src/dht_state.rs:34-50 | each entry its peer behind its length in two bytes, the number of its addresses in two, and those |
| `RoutingTable.FieldLayout` | native/p2p_bridge/src/dht_state.rs:40-47 | peers and addresses are their length in two bytes, most significant first, and their bytes |
| `RoutingTable.DecodeExact` | native/p2p_bridge/src/dht_state.rs:53-91 | bytes decode to given entries if and only if they are within the limit, the entries fit their length fields and the bytes start with their encoding |
| `RoutingTable.RoundTripExact` | native/p2p_bridge/src/dht_state.rs:25-91 | a table survives a round trip if and only if its lengths fit and the whole is within 4 MiB |
| `RoutingTable.PrefixTruncated` | native/p2p_bridge/src/dht_state.rs:93-139 | every strict prefix of an encoding is refused as truncated, at an offset whose need runs past the end |
| `RoutingTable.EntriesBounded` | native/p2p_bridge/src/dht_state.rs:75-88 | more entries than a quarter of the bytes are never read, whatever count is declared |
| `RoutingTable.AddressesBounded` | native/p2p_bridge/src/dht_state.rs:81-85 | nor more addresses than half the bytes |
| `RoutingTable.EstimateExact` | native/p2p_bridge/src/dht_state.rs:26-33 | the reserved capacity is the exact length |
| `RoutingLoops.EncodeTable` | native/p2p_bridge/src/dht_state.rs:25-51 | the nested loops produce the specified bytes, of the estimated length |
| `RoutingLoops.DecodeTable` | native/p2p_bridge/src/dht_state.rs:53-91 | the nested loops over the cursor compute the specified result |
| `RoutingLoops.Cursor.ReadVec` | native/p2p_bridge/src/dht_state.rs:128-139 | the next bytes and the new offset, or an error that names the offset and the need |

## Left out

- Iroh, QUIC, gossip, mDNS, DHT and relay set-up: a stream is an ordered channel of bytes.
- Ed25519 and key files: a signature scheme is an abstract relation, a key an opaque 32-byte value that may be invalid.
- Authorization of incoming connections by node bindings and their expiry in real time (native/iroh_discovery/src/dist.rs:246-283).
- Fairness: a full queue, a blocked write or a blocked event send may end or stall a stream; `Progress` says what follows when writes complete and events are taken.
- Client-side timeouts of port calls: they can report failure for bytes the daemon accepted, so `Node` and `Pair` cover runs in which the port answers truthfully.
- JSON and hex encoding on the port, its event subscribers, and JSON encoding failures of a request.
- Supervisor exits (which end as a close call does), statistics queries and the death of the port in the controller, except that it may exit at any time.
- Closing the listener, and the hand-over of an accepted controller to the kernel.
- `Registry::bindings`, `endpoint_for_node` and the uniqueness of node names: two endpoints may hold one name, and the code does not promise otherwise.
- The memory-only sequence store, which is `SequenceStore` without a disk.
- Readers.Reader.Take: the cursor is the unread remainder of its input, in place of the whole input and an offset into it.
- RegistryRuns.StepKeepsInv: covers a clock that does not go back between restarts.
- RateLimit.RunDecides: covers one endpoint between enrolments, because revoking it clears its queue.
- `native/p2p_bridge` other than the routing-table codec, Horde, Partisan, handoff, capability RPC and the discovery providers: wiring over libraries.
- User interfaces, demos, telemetry, mix tasks and build scripts.
- `TaskTracker`: small map updates that would only add easy members.
