# near-ledger-rs: a verified model of the Ledger transport stack

This project models how near-ledger-rs talks to a Ledger device and proves what the layers guarantee together.

Two layers stand on each other. The BLE framing layer cuts a byte string into packets no longer than the negotiated packet
size (a first packet with a 5-byte header, later ones with a 3-byte header and a 16-bit sequence number) and reassembles
notifications into a byte string. The APDU layer cuts a signing request, path bytes followed by payload, into 250-byte
chunks, flags the last one, and stops at the first reply that is not an acceptance; a dry run logs the same commands
without sending them. Beside them stand opening the NEAR application and the encoding of NEP-413 messages. At the far end
stands a device that follows the documented framing to the letter.

How the model is laid out:

| file | content |
|---|---|
| `Wrappers.dfy`, `Bytes.dfy` | results, bytes, fixed-width integers, sequence facts |
| `Packets.dfy`, `Framing.dfy` | packet formats; the sender's packets, their number, size and optimality |
| `Receiving.dfy` | the receiver, and a declarative account of every way it can end |
| `Strict.dfy`, `RoundTrip.dfy` | the strict reassembler, the device end of the link, noisy round trips |
| `Apdu.dfy`, `Links.dfy` | commands and answers; the state of a link as a value, and the session invariant |
| `BleTransport.dfy` | the class `TransportBle`, whose methods are proved against the operations on links |
| `Signing.dfy`, `PrintApdus.dfy`, `BleApi.dfy`, `Usb.dfy`, `SignApi.dfy` | chunking, what a signing run is, the dry run, the two signing loops and the calls that use them |
| `Pairing.dfy`, `Noise.dfy` | whole runs with an answering device; timeouts and malformed notifications anywhere in a stream |
| `Turns.dfy`, `Answers.dfy` | runs in which exchanges fail, turn by turn; which answer each exchange reads, and exactly when it is its own |
| `Misreads.dfy`, `Certainty.dfy` | how answers are misread; the exact condition under which a caller can rule it out |
| `Stalled.dfy`, `Delivery.dfy`, `Sessions.dfy` | a device left in the middle of a frame; end-to-end delivery of a request; of many requests, some of them failed |
| `Nep413.dfy`, `OpenApp.dfy` | the NEP-413 encoding; opening the application on both transports |

The environment is decided in advance and is arbitrary: a link holds the fate of every coming write (acknowledged, reported
as failed though it arrived, or lost) and the events its notification stream will yield (a value or a timeout; with no event
left the stream has ended). A theorem about all links is therefore a theorem about every behaviour of the radio and the device.
`TransportBle` keeps the packets that arrived and the exchanges made in ghost fields. `After(l, commands)` is the link
after some exchanges, whatever their replies; `Signs` and `OpenRun` say which traces of commands and replies a call may leave.
The devices at the far end and the main statements use the bytes on the wire as numbers, not the names the sender has for them.
`{:induction false}` stands where Dafny would otherwise start an induction of its own beside the written proof.

Facts about code outside the repository are modelled as follows. `APDUCommand::serialize` is class, instruction, two
parameters, one length byte holding the low eight bits of the length, and the data: the short form of section 5.1 of
ISO/IEC 7816-4:2005. `APDUAnswer::from_answer` needs two bytes, and the last two are the status word. A derivation path is a
sequence of `u32`, of any length. `u16` overflow is the panic of a build with overflow checks, modelled as the error
`CounterOverflow`, so that `SendFramed` is defined for every packet size.

Findings.

- The sequence counter overflows exactly for a non-empty payload at a size of at most 3, where the loop never advances, or
  for 65535 bytes at size 4; no session can have those sizes.
- The number of path components is not sent, so requests at different depths can have the same commands.
- Answers carry no identification, and each exchange reads the next answer that is there. Suppose that the notifications of
  at least three bytes are one frame for each command the device hears, foreign packets included; timeouts and shorter
  notifications may stand anywhere. Then an exchange that reads an answer reads its own if no exchange before it on the link reported
  a timeout, an invalid packet or a failed write. A caller has nothing better to go by: after any replies that contain one of
  these, there is a link on which the next reply is misread. It need not be. If the earlier failures fell between frames,
  every later exchange that reads an answer reads that of an earlier command as soon as one was heard and not answered in
  its turn. But a failure inside a frame leaves the rest of it to be read as if a frame began there; that can pass for a
  bare acceptance, and can also swallow the next frame, after which answers are right again.
- No command marks the first chunk of a request. A signing device that keeps every chunk it hears until a last one, also
  when it answers that chunk with a refusal, has the chunks of a request that was cut short in front of those of the next
  request for the same instruction.
- A frame cannot be abandoned by the sender. The framing does not say what a device does with a packet out of place, so both
  rules are considered. A device that gives up on it hears nothing more on this link once a write has failed with a part of
  a frame delivered; one that starts anew at any packet that begins a frame hears every later command that arrives whole.
- The USB name parser indexes out of range on exactly the accepted replies shorter than the name they announce, where the
  BLE parser returns an error.
- The comments in `src/lib.rs:538` and `src/print_apdus.rs:41` call each other's functions by names that do not exist; the
  functions meant are `print_payload_apdus` and `send_payload_apdus`.

## Model

| member | source | states |
|---|---|---|
| `Packets.InitialPacket.Serialize` | src/ble.rs:153-161 | builds tag, zero sequence, big-endian length and payload by appending |
| `Packets.SubsequentPacket.Serialize` | src/ble.rs:192-200 | builds tag, big-endian sequence index and payload by appending |
| `Packets.InitialPacketRoundTrip` | src/ble.rs:153-182 | decoding an encoded initial packet returns it, fewer than 5 bytes is an error, and re-encoding a decoded one gives it back exactly if its sequence bytes were zero |
| `Packets.SubsequentPacketRoundTrip` | src/ble.rs:192-221 | subsequent packets survive encoding and decoding in both directions, and fewer than 3 bytes is an error |
| `Framing.CounterOverflowsExactly` | src/ble.rs:404-433 | over every packet size and payload, the counter overflows if and only if the size is at most 3 with data to send, or 4 with 65535 bytes |
| `Framing.CounterSafeByCount` | src/ble.rs:404-433 | from size 4 on, the counter is safe if and only if 1 + ceil((len - first piece)/(size - 3)) is at most 65535, and that is the number of packets |
| `Framing.PacketBound` | src/ble.rs:404-433 | at size 6 or more the counter never overflows and at most 21846 packets are written |
| `Framing.PacketBoundIsTight` | src/ble.rs:404-433 | 65535 bytes at size 6 take exactly 21846 packets |
| `Framing.PacketSizes` | src/ble.rs:404-433 | no packet exceeds the packet size and all but the last fill it |
| `Framing.GreedyIsOptimal` | src/ble.rs:404-433 | no other division into one piece beside a 5-byte header and pieces beside 3-byte headers carries the payload in fewer packets |
| `Framing.FrameSpells` | src/ble.rs:398-436 | whenever the sender completes, its packets are in the documented format: an initial packet, then packets numbered 1, 2, ... that carry the rest in order |
| `Receiving.ReceivesExactlyFrames` | src/ble.rs:439-482 | the receiver returns b and leaves a rest if and only if the stream begins, up to that rest, with a frame carrying b: foreign non-empty packets, an opening packet, well-formed packets whose matching payloads first reach the declared length at the last one |
| `Receiving.FailsExactlyOnBrokenFrames` | src/ble.rs:439-482 | it fails with e if and only if, after a proper beginning of a frame, the stream ends, times out or holds a too-short packet, with the error and unread events that go with it |
| `Receiving.FrameIsUnique` | src/ble.rs:439-482 | a stream begins with at most one frame, and never with both a frame and a broken one |
| `Receiving.ReceiveIgnoresSequence` | src/ble.rs:176-180 | rewriting the two sequence bytes of any packets changes neither the result nor how many events are read |
| `Strict.StrictIsExactLenient` | src/ble.rs:7-13 | a strict reader of the documented protocol accepts (b, rest) if and only if the receiver returns (b, rest), the packets read were numbered 0, 1, 2, ... and no byte went beyond the declared length |
| `Strict.SpelledFrameIsHeard` | src/ble.rs:7-13 | any frame in the documented format is heard by a strict device once, at its last packet, byte for byte, and before that nothing new is heard |
| `Strict.FrameIsHeard` | src/ble.rs:398-436 | so is everything the sender writes, at every packet size from 5 |
| `RoundTrip.SpelledRoundTrip` | src/ble.rs:439-482 | the receiver recovers any frame in the documented format, however cut, with any admissible foreign packets before and between its packets, and leaves what follows unread |
| `RoundTrip.NoisyRoundTrip` | src/ble.rs:397-482 | wherever the sender completes, the receiver returns exactly its payload from its packets interleaved with admissible foreign packets, and leaves what follows unread |
| `RoundTrip.SpelledFrameCarries` | src/ble.rs:439-482 | such a stream is one frame in the sense of the receiver's characterisation |
| `BleTransport.TransportBle.Write` | src/ble.rs:376-382 | one write: the packet arrives or not and the error is reported as the link decides |
| `BleTransport.TransportBle.NextNotification` | src/ble.rs:384-395 | the next event: a value, a timeout, or the end of the stream |
| `BleTransport.TransportBle.SendFramed` | src/ble.rs:398-436 | writes exactly the packets of the frame up to the first failed write, refuses more than 65535 bytes unsent, for every packet size |
| `BleTransport.TransportBle.RecvFramed` | src/ble.rs:439-482 | result and unread events are those of the characterised receiver, on every finite stream |
| `BleTransport.TransportBle.InferMtu` | src/ble.rs:489-534 | sends the query, passes over other notifications and stores the negotiated size, as the link operation that `NegotiationOutcome` characterises |
| `BleTransport.TransportBle.GetMtuSize` | src/ble.rs:536-539 | the stored size exactly, or 20 before negotiation; in a session within 6..255 |
| `BleTransport.TransportBle.Exchange` | src/ble.rs:542-554 | one framed request at the size in force, one framed answer, decoded, and recorded |
| `Links.NegotiationOutcome` | src/ble.rs:489-534 | the query written is 08 00 00 00 00; negotiation succeeds if and only if its write is acknowledged and a notification beginning with 08 comes before any timeout; the size is the sixth byte of the first such notification if above 5 and otherwise 20, always within 6..255, and is untouched on failure |
| `Links.NegotiationFailure` | src/ble.rs:489-534 | the error is a failed write if and only if the query was not acknowledged, a timeout if and only if one comes before any answer, and otherwise the end of the stream |
| `Links.NegotiatedSizeHolds` | src/ble.rs:489-554 | after a negotiation every packet of any later run has at most as many bytes as the sixth byte of the answer says, or 20 if that leaves no room or is missing |
| `Links.ExchangeOutcome` | src/ble.rs:542-554 | at every stored size, and at 20 if none is stored: the packets of the command's frame at that size with tag 05 are written in order, each within it, up to the first write not acknowledged; only if all are, one frame is read and decoded, and a counter overflow is reported before reading |
| `Links.OversizeIsRefused` | src/ble.rs:407-411 | a command of more than 65535 bytes is refused and nothing is written or read |
| `Links.ExchangeIsSafe` | src/ble.rs:542-554 | at a session's size an exchange never overflows the counter and no packet it sends exceeds the stored size, or 20 if none is stored |
| `Links.SessionIsSafe` | src/ble.rs:542-554 | over any run of exchanges on any link the size stays, every exchange is recorded in order, none overflows the counter and no packet exceeds the stored size, or 20 if none is stored |
| `Apdu.CommandRoundTrip` | src/ble.rs:546 | a device reads back a serialised command if and only if its data has at most 255 bytes |
| `Apdu.SerializedInjective` | src/ble.rs:546 | the bytes sent determine the command |
| `Apdu.AnswerRoundTrip` | src/ble.rs:552-553 | an answer is its data followed by the big-endian status word, both ways, and exactly replies of fewer than two bytes are refused |
| `Signing.PathIsBigEndian` | src/lib.rs:121-128 | a path becomes four bytes per component, most significant first, in order |
| `Signing.ChunksPartition` | src/lib.rs:549-567 | chunks concatenate to the data; all but the last have 250 bytes and the last 1 to 250; their number is ceil(len/250) |
| `Signing.ChunksAreFewest` | src/lib.rs:549-567 | no division into pieces of at most 250 bytes has fewer pieces |
| `Signing.CommandsAreWellFormed` | src/lib.rs:555-567 | exactly the last command carries P1 0x80 and the others 0; each fits its length byte, is read back as sent and passes the BLE size guard |
| `Signing.CommandBytes` | src/lib.rs:555-567 | every byte of every command: 80, the instruction, 80 for the last and 00 for the others, 57, the length, and the request's bytes from 250 i on, at most 250 of them; there are ceil(len/250) commands |
| `Signing.CommandsCarryData` | src/lib.rs:549-554 | the data of the commands together is the path bytes followed by the payload |
| `Signing.SameCommandsExactly` | src/lib.rs:540-567 | two requests give the same commands if and only if their path-and-payload bytes are equal and, when there are any, so is the instruction |
| `Signing.CommandsDetermineRequest` | src/lib.rs:540-567 | at a fixed path depth, equal non-empty command lists come from equal path, payload and instruction |
| `Signing.DepthIsNotSent` | src/lib.rs:121-128 | across depths they need not: every request has the commands of one with an empty path |
| `Signing.SignatureExactly` | src/lib.rs:555-594 | a run returns a signature if and only if there is a chunk and every reply is 0x9000, and it is the data of the last reply |
| `Signing.FirstFailureEndsRun` | src/lib.rs:579-589 | if the k-th reply is the first failure, exactly k commands were sent and the result is that reply's status word or its transport error |
| `Signing.NothingToSign` | src/lib.rs:592-595 | the run reports that nothing could be processed if and only if path and payload are both empty, and then nothing was sent |
| `Signing.DryRunAgrees` | src/print_apdus.rs:41-73 | the commands a real run sends are a prefix, byte for byte, of what the dry run logs, and all of it exactly if none but the last was refused |
| `PrintApdus.PrintPayloadApdus` | src/print_apdus.rs:44-73 | logs one line for each command of the request, ceil(len/250) of them: its index, whether it is the last, and its bytes |
| `BleApi.SendPayloadApdusBle` | src/ble_api.rs:324-375 | the exchanges made are a signing run of the request's commands on this link, with this result, and one log line each |
| `BleApi.SigningStep` | src/ble_api.rs:352-370 | one more exchange carries a run on, completes it with the answer's data, or ends it with the answer's status word or the transport error |
| `BleApi.BleSignatureExactly` | src/ble_api.rs:352-370 | over BLE a signature comes if and only if there is a chunk and every exchange the link would make is accepted, and it is the data of the last |
| `BleApi.SignedRunIsDetermined` | src/ble_api.rs:324-375 | the result and the link afterwards are determined by the link and the request |
| `Usb.SendPayloadApdus` | src/lib.rs:540-595 | the same over USB: one transport opened, one reply taken from the host for each command sent, in order, and nothing sent if the transport cannot be opened |
| `Usb.UsbSignatureExactly` | src/lib.rs:555-594 | over USB a signature comes if and only if there is a chunk and the host's next replies, one per command, all carry 9000, and it is the data of the last of them |
| `Usb.RepliesInOrder` | src/lib.rs:545-579 | requests that each find a transport get the host's replies in order and use up exactly those |
| `SignApi.SignTransactionBle` | src/ble_api.rs:280-292 | signs the given bytes with instruction 02 |
| `SignApi.SignMessageNep413Ble` | src/ble_api.rs:295-307 | signs the encoding of the message with instruction 07 |
| `SignApi.SignDelegateActionBle` | src/ble_api.rs:310-322 | signs the given bytes with instruction 08 |
| `SignApi.SignTransaction` | src/lib.rs:501-506 | the same as over BLE, instruction 02 |
| `SignApi.SignMessageNep413` | src/lib.rs:516-525 | the same as over BLE, instruction 07 |
| `SignApi.SignDelegateAction` | src/lib.rs:527-536 | the same as over BLE, instruction 08 |
| `Pairing.EveryCommandGetsItsAnswer` | src/ble.rs:542-554 | over runs of any length, with acknowledged writes and one frame per answer, foreign packets included, the i-th exchange returns the i-th answer and the stream is left right after the last frame |
| `Pairing.CommandsAreHeard` | src/ble.rs:398-436 | a strict device hears exactly the commands of a run, one frame each |
| `Pairing.ClosedLoop` | src/ble.rs:542-554 | with a device that computes each answer from all it has heard, after every exchange it has heard exactly the commands so far, the reply is the answer to them, and the later frames are unread |
| `Pairing.LateAnswerIsMisread` | src/ble.rs:384-395 | if an exchange times out before the first packet of its answer's frame, the next command's exchange returns that late answer |
| `Noise.ReceivesOrFails` | src/ble.rs:439-482 | over every stream whose notifications of at least three bytes begin with a frame, wherever timeouts and shorter ones stand in it, the receiver returns what the frame carries and leaves what follows, or fails with a timeout or an invalid packet and leaves the part of the frame it has not read |
| `Turns.EveryTurnIsTaken` | src/ble.rs:542-554 | over runs of any length in which each exchange is answered, or meets a timeout or malformed notification before or inside its frame, or has a write reported as failed after any number of packets, the i-th reply is the one its turn gives and the link is left at the beginning of the next turn |
| `Turns.EveryRunUnfolds` | src/ble.rs:542-554 | every run on every link, unless it reaches the end of its writes or its stream, is such a run |
| `Turns.TurnsAreHeard` | src/ble.rs:397-436 | in such a run, if no write failed inside a frame, a strict device hears exactly the commands all of whose packets arrived, unacknowledged ones included |
| `Answers.AnswersOrTrouble` | src/ble.rs:542-554 | one exchange on any link whose readable notifications begin with a frame returns the answer in it, or reports a timeout, an invalid packet or a failed write |
| `Answers.CalmRunPairs` | src/ble.rs:542-554 | on every link whose readable notifications are one frame per command, whatever its writes do and wherever timeouts and malformed notifications stand, a run in which no exchange reported a timeout, an invalid packet or a failed write gave each command its own answer |
| `Answers.PairsExactlyInStep` | src/ble.rs:542-554 | on such a link, if the receives that failed before did so between frames, an exchange that reads an answer reads the one numbered by the answers read before it, and this is its own if and only if every command heard before it was answered in its own turn |
| `Answers.PairsExactlyWithoutTrouble` | src/ble.rs:542-554 | as the caller sees it on such a link: no earlier timeout, invalid packet or failed write means the own answer, wherever failures fall; if the failures fell between frames and the device heard the earlier commands, only that does |
| `Answers.ReplyIsOwnExactlyInStep` | src/ble.rs:542-554 | with a device that computes distinct answers from all it has heard and sends one frame each, and failures between frames, the reply is the answer to what it has heard by then if and only if every command heard before was answered in its own turn; a device that does not start anew at a frame also needs that no write failed inside one |
| `Certainty.TroubleCanMislead` | src/ble.rs:542-554 | for any commands, any replies to them of which one is a timeout, an invalid packet or a failed write, and any answer, there is a link on which the device hears and answers every command by one frame, these replies are given, and that answer is the device's to the last command |
| `Certainty.CertainExactly` | src/ble.rs:542-554 | over all links on which the device hears every command and answers it by one frame, and for all replies an exchange can give, the last reply is certain to be the last command's own answer if and only if none of the replies is a timeout, an invalid packet or a failed write |
| `Misreads.UnacknowledgedIsMisread` | src/ble.rs:376-382 | if the last packet of a command arrives but its write is reported as failed, the device has heard the command and its answer is returned for the next one |
| `Misreads.LateFrameIsMisread` | src/ble.rs:442-451 | after a receive that failed at a timeout or a malformed notification, a frame that follows is returned for the next command |
| `Misreads.NothingIsEnough` | src/ble.rs:443-445 | an empty notification before the frame is such a failure, with no timeout and nothing of the frame read |
| `Misreads.CutFrameIsLeft` | src/ble.rs:462-481 | a timeout or too-short notification inside a frame, or one at which the search for it fails, discards the packets read and leaves the others at the head of the stream |
| `Misreads.CutAnswerIsForged` | src/ble.rs:444-460 | if the packet after the failure has the size its own bytes 3 and 4 announce, the next receive returns its later bytes as a whole payload, though the frame carried another |
| `Misreads.CutAnswerCanAccept` | src/ble.rs:552-553 | with these packets an answer that is no bare acceptance, cut by a timeout or by a one-byte foreign notification, makes the next exchange receive 90 00 |
| `Misreads.CutCanResynchronise` | src/ble.rs:462-481 | if the packet after the failure and the frame after it pass for one frame, the next receive returns a mixture of two answers and the one after that its own answer |
| `Misreads.ResynchronisedStream` | src/ble.rs:462-481 | such a stream of three answered commands, in bytes |
| `Delivery.SignerHolds` | src/ble_api.rs:330-352 | whatever a signer held, after the first j commands of a request it has added exactly the first 250 j bytes of path bytes and payload, and only the last command finishes the message |
| `Delivery.NothingFinishedEarly` | src/ble_api.rs:338-371 | at every point of a run before its last exchange, on any link, the device has added exactly the first 250 k bytes to what it held, not all of them, and has finished nothing |
| `Delivery.EndToEndDelivery` | src/ble_api.rs:330-375 | on every link and whatever a strict device held: a run that returns a signature has left it exactly one new message, what it held and then path bytes and payload; a run that fails otherwise than by a failed write has left it exactly the chunks sent; after a failed write the last chunk sent may be missing |
| `Delivery.CooperativeDeviceGetsSigned` | src/ble_api.rs:330-375 | with acknowledged writes and framed acceptances amid foreign packets, every non-empty request returns the last answer's data and leaves the device with the whole message |
| `Delivery.SignatureIsGenuine` | src/ble_api.rs:324-375 | on every link whose readable notifications are one frame per command, with writes failing and timeouts and malformed notifications anywhere, a signature that is returned is the data of the device's answer to the last chunk, every chunk was accepted, and a strict device has exactly this message |
| `Delivery.FreshSessionDelivers` | src/ble.rs:355-362 | from a fresh link through negotiation to a signature, everything the device was ever sent amounts to exactly the one message |
| `Sessions.SessionDelivers` | src/ble_api.rs:324-375 | over any number of requests on one link, for any instructions and with any outcomes, what a signer holds and has finished is a function of the requests and of how many commands of each were heard, which is as many as were sent or, after a failed write, perhaps one fewer; on a device that starts anew at every frame, and without failed writes on one that does not |
| `Sessions.SignedSessionDelivers` | src/ble_api.rs:324-375 | a session of signed requests leaves a signer that held nothing exactly the messages of its own instruction's requests, whole and in order; k signed requests for one instruction are k messages, the i-th being the i-th request's bytes |
| `Sessions.MessageIsOwnExactly` | src/ble_api.rs:338-345 | after any session, on the same devices, the message a further signed request finishes is its own if and only if, since the last request for its instruction of which every chunk was heard, no chunk was heard of one |
| `Sessions.PartIsPrepended` | src/ble_api.rs:338-345 | if the request before it was cut short with nothing held, the next message is that request's chunks and then its own bytes |
| `Stalled.StuckExactly` | src/ble.rs:398-436 | an exchange leaves a strict device stuck if and only if some, but not all, packets of its frame arrived |
| `Stalled.StuckForever` | src/ble.rs:398-436 | a stuck device that gives up on a packet out of place hears nothing of any later run of exchanges, on any link |
| `Stalled.FrameStartsAnew` | src/ble.rs:398-436 | an equally strict device that starts anew at any packet that begins a frame takes the packets of a command from any state as an idle one does |
| `Stalled.AnewHearsWhatArrives` | src/ble.rs:398-436 | over every link and every run, from any state, such a device hears exactly the commands all of whose packets arrive |
| `Nep413.EncodingLayout` | src/lib.rs:508-514 | where each field of an encoded message is: little-endian lengths, raw nonce, tag of the optional URL, to the last byte |
| `Nep413.EncodeDecode` | src/lib.rs:508-525 | a decoder in field order undoes the encoding and returns whatever followed it, for all strings under 2^32 bytes |
| `Nep413.DecodeEncode` | src/lib.rs:508-525 | whatever decodes was the encoding of the result followed by the tail |
| `Nep413.EncodingIsPrefixFree` | src/lib.rs:508-525 | no encoding begins another message's encoding |
| `Nep413.DistinctMessagesDistinctCommands` | src/lib.rs:516-525 | different messages, or paths of one depth, are never sent as the same commands |
| `OpenApp.ParsersAgreeExactly` | src/ble_api.rs:85-109 | the BLE parser never panics, and the two parsers agree if and only if an accepted reply holds the name it announces; on exactly the others the USB one indexes out of range |
| `OpenApp.BareStatusPanicsOverUsb` | src/lib.rs:215-217 | the reply 90 00 is such a case |
| `OpenApp.OpenNearApplicationBle` | src/ble_api.rs:146-180 | the exchanges are an opening run on this link, with this result |
| `OpenApp.OpenNearApplication` | src/lib.rs:273-313 | the same over USB: each step opens a transport of its own and takes the host's next reply, none if the opening fails, and nothing else of the host is used up |
| `OpenApp.OpeningIsSafe` | src/ble_api.rs:146-180 | on every device that acts on the bytes it is sent: success means that the application `NEAR` is running and is exactly every exchange answered with 9000; at most three commands; quit goes only to another application, and only `NEAR` is asked for, only from the dashboard, with nothing failed before it |
| `OpenApp.OpeningCommands` | src/ble_api.rs:147-180 | the commands sent are B0 01 00 00 00, then at most one B0 A7 00 00 00, then E0 D8 00 00 04 and `NEAR` |
| `OpenApp.NameReplyOutcome` | src/ble_api.rs:146-158 | what follows the name reply, on both transports: a transport error or status word as it is, 5515 as a locked device, the length checks of each parser, `NEAR` as success, `BOLOS` as the open command and any other name as the quit command |
| `OpenApp.LastReplyOutcome` | src/ble_api.rs:114-180 | after a quit or open command the last reply decides: success at 9000, else its status word or its transport error |
| `OpenApp.OpeningAgainOnlyAsks` | src/ble_api.rs:147-148 | a call after a successful one sends only the name query and changes nothing |
| `OpenApp.SidesAgree` | src/lib.rs:273-313 | on one device and one sequence of replies both transports send the same commands and return the same result |

## Left out

- Scanning, connecting, choosing characteristics and deriving UUIDs: input, output and constant tables.
- USB HID framing inside `TransportNativeHID`: a USB exchange is one step from command to reply. That library is not part of this model.
- Scheduling, locks, sleeps and real time: a timeout is one kind of event, and one exchange is in flight at a time.
- Builds without overflow checks, where `seq_index` wraps: the sizes at which it would are ruled out for every session.
- An endless stream of foreign packets, on which the receiver would not return: streams are finite, of any length.
- Key and signature checks, public keys, wallet identifiers and versions: thin wrappers and cryptography.
- Error texts, log formatting and hexadecimal output: errors keep the status code, and a log line its bytes, index and last-chunk mark.
- Lossy UTF-8 decoding of names: names are compared as bytes, which decides equality with `NEAR` and `BOLOS` alike. NEP-413 strings are their bytes, and the decoder does not check that they are UTF-8.
- `borsh::to_vec(...).unwrap()` on a string of 2^32 bytes or more, which panics: `Nep413.Encode` is defined for the others.
- The sample programs under `examples/`.
