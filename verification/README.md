# Kamekichi, verified

A Dafny model of the protocol code of the kamekichi bot, with proofs of what that code
promises. Most of it is about `kamekichi-ws`, a WebSocket client (RFC 6455) over a
byte stream that may split, delay, interrupt or refuse any read or write. Three smaller
parts follow: the chunked-body decoder and the heartbeat of `kamekichi-discord`, and the
state file of `kamekichi`.

`dafny verify dfyconfig.toml` checks everything.

## How the client is modelled

There are three layers, and beside them a restatement of what they share.

* **Pure references.** `Frames` parses one frame from a byte sequence, `Messages` reads a
  whole byte sequence as messages, `TextAssembly` is the fold of `push_text_payload`,
  `Masking` is the octet-by-octet XOR, `Utf8` is the scan behind `str::from_utf8` and
  `utf8_chunks` (section 4 of RFC 3629). They know nothing of buffers, reads or retries.
* **The references in plain numbers.** Program and theorems share the references, so
  these are restated without their names: `Scalars` encodes text from scalar values by
  arithmetic, `Wire` gives headers, opcodes, close codes and client frames by the values of
  their octets, `Responses` writes handshake responses out octet by octet, `SizeLines` gives
  chunk sizes by tables of digits and white space, `KeyOrder` orders keys by their octets.
* **A transition system.** `Connection` describes the client by small steps (`Send`,
  `Drain`, `Receive`, `Eof`, `Abort`) on an abstract endpoint: octets not yet consumed,
  reassembly state, close state, flood score, octets accepted by the stream, octets
  queued, and the history of committed frames and delivered messages. `Delivery` and
  `Outbound` prove theorems about every run of these steps. `Reading` adds what a run
  leaves open: how much each pass of the read loop fetches, as a function of the read
  buffer's cursors and length, the stream's events and the random draws. `Pressure`
  (the flood limit) and `Leftovers` (what a reused buffer changes) are about every
  number of passes.
* **The program.** `Transport.Stream`, `ReadBuffer.ReadBuf`, `SendBuffer.SendBuf`,
  `FrameIo.TextBuffer` and `Client.WebSocket` are classes with the program's fields, and
  their methods are the program's methods, loops included. Each method returns, as
  ghost results, the steps it took and the passes it made, and is proved to have moved
  `WebSocket.Abs()` by exactly these steps and its reading state by exactly these passes.
  `Sessions.Session` and `Sessions.Conversation` join the layers: any sequence of calls,
  on a new or reused client, over any stream, from the opening handshake on. `Pairs`
  compares two clients on the same octets, and `Witnesses` runs the program into the
  failures that the theorems exclude.

A stream has the octets the peer will ever send and a finite schedule of outcomes for
reads and writes; a schedule that has run out blocks. Where the program draws a random
number, asks for an allocation's capacity or alignment, or runs on a machine of some byte
order, the model takes an arbitrary value, so the proofs hold for all of them; the draws
that shrink the read buffer are a field of the client, because they decide what later
reads ask for. Octets are 8-bit vectors, lengths are unbounded integers with the 64-bit
limits written out, and the two length sums of `read_message` are proved to stay below
2^64. Every slice, subtraction, `expect`, `unreachable!` and `unwrap_err` of the modelled
code is a proof obligation of its method (the two `unwrap_err` calls:
`TextAssembly.RefusedPieceIsInvalid`). The one sum without a bound is
`flood_score += 1`: the score is an unbounded number in the model. While no flood error
was raised it is at most the limit (`Pressure.FramesAreBudgeted`), so the sum can leave 64
bits only under the limit 2^64 - 1.

## Main results

1. **Delivery** (`Delivery.DeliveredIsTheTranscript`, `Client.WebSocket.ReadMessage`): for
   every stream of octets, what `read_message` delivers, and the error it ends with, is
   what the pure reader makes of the whole stream, however reads split it, whatever the
   frame budget, compaction, shrinking and blocked calls in between. An I/O failure, the
   flood limit or a missed ping deadline can only cut it short.
2. **Text across fragments** (`Messages.WhatBecomesOfText`,
   `Messages.FragmentedTextOutcome`): for every fragmentation of every text within the limit,
   valid or not, the frames deliver what the fold of `push_text_payload` makes of the
   fragments. The text is delivered as it was sent if and only if it is UTF-8, that is, the
   encoding of a sequence of scalar values (`Wire.TextIsDeliveredIffScalars`,
   `Scalars.ValidIffEncoded`); an invalid one is refused, unless a step takes the branch that
   forgets octets (`TextAssembly.ValidIffAcceptedWhole`, `TextAssembly.AcceptedIsFaithfulIff`). That branch
   exists: frames with C3, 41, A4 deliver C3 A4 (`Messages.DroppedOctetOnTheWire`). With the
   missing length check acceptance is validity for all fragmentations
   (`TextAssembly.RepairedIffValid`).
3. **Wire integrity** (`Outbound.WireIsCommittedFrames`,
   `Outbound.ServerReadsCommittedFrames`): octets accepted by the stream followed by octets
   queued are always the committed frames in order, and a server decodes a beginning of
   them with the payloads they were given; the octets of each frame are stated as numbers
   (`Wire.ClientFrameByNumbers`). Every send and flush reports what the stream did:
   `Client.WebSocket.Flush` returns what the last write, or the transport's own flush, calls for.
4. **Closing handshake** (`Sessions.Session`, `Outbound.GrammarHoldsIffNotLeaked`):
   (data | ping | pong)\*, then at most one close, then only pongs, in every session in which
   no write of the stream failed or accepted nothing. The one leak is `send_close` whose
   flush fails for good, which skips the transition; the condition is exact, and
   `Witnesses.PingBehindClose` is a program that sends the server a ping behind its close.
5. **Pings and pongs** (`Messages.PingPongTransparent`, `Outbound.PongsAreThoseOwed`,
   `Outbound.PendingOutputIsBounded`): the pongs committed are the payloads of exactly the
   pings that arrived while pending output was below its target size, in order, in every
   run; pending output is bounded. A call of `read_message` ends with nothing queued, or
   the stream refused a write during it (`Client.WebSocket.ReadMessage`), so a pong or a close
   echo is written by the call that owes it whenever the stream takes it.
6. **Flood accounting** (`Pressure.FramesAreBudgeted`, `Pressure.TrickleNeverFloods`,
   `Sessions.Session`): a frame counts as a small read by the octets its pass fetched, not
   by assumption.
7. **Frame codec** (`Frames.ServerFrameParses`, `Frames.WholeIsServerFrame`,
   `Frames.ServerReadsClientFrame`): parser and encoders are inverse, and every frame has
   exactly one accepted encoding.
8. **Masking** (`Masking.ApplyMask`): the aligned 128-bit pass is the textbook XOR for
   every length, alignment and byte order.
9. **Reuse** (`Pairs.ReusedAndNew`, `Pairs.ReusedAndNewConnect`): a client that served any
   earlier connection and a new one, on the same octets, deliver the same as far as both
   go, and end alike unless cut off, for any calls, schedules and writes, with or without
   the opening handshake. The reused client differs in the length of its read buffer, which
   decides how much a read asks for and so the flood score. On the same schedule and draws
   a short leftover is in the same reading state after as many passes, flood error included;
   a longer one need not be. The exact bound is 4096 octets for a stream given without a
   handshake (`Leftovers.HarmlessIffShort`) and 8704 for a client that connects
   (`Leftovers.HarmlessToConnectIffShort`), both equivalences. `Witnesses.SecondTimeFloods`
   and `Witnesses.SecondConnectionFloods` are programs whose second connection ends as a
   flood on octets that a new client reads without complaint.
10. **Opening handshake** (`Handshake.ReadUntil`, `Handshake.ReadResponse`,
    `Sessions.Connect`): the stateful scan finds what a one-shot search of the first 8192
    octets and 64 lines finds, and what it fetches beyond the header is a function of the
    buffer's length, the octets and the stream's events. A response written out as lines, with
    any text behind it, is accepted when it arrives if its first line is `HTTP/1.1 101` or
    continues with a space, and refused for its status otherwise
    (`Responses.ResponseIsAnswered`).
11. **Chunked bodies** (`Chunked.AcceptedIffEncoded`, `Chunked.ReadChunkedBody`): exactly
    the well-formed bodies up to 16 MiB are accepted, with exactly their data, and no read
    is made once the octets in hand settle the answer. A size line has the size that its
    digits, in either case, spell by their tables (`SizeLines.SizeIffLine`).
12. **Heartbeat** (`Heartbeat.ZombieRaisedInTime`, `Heartbeat.AnsweredIsNeverZombied`,
    `Heartbeat.Poll`): a dead connection is noticed in time and a live one is never given up.
    The run that the polling loop is held to consists of the clock's readings and the
    messages that arrived, one pass for each.
13. **State file** (`StateFile.SavedLoadsBack`, `StateFile.SavedTextIsUnique`,
    `StateFile.Save`): every state is loaded back from its text, which is unique, with its
    keys in the order of their octets (`KeyOrder.LessIsByOctets`).

## Where code and documentation disagree

The model follows the code.

* crates/kamekichi-ws/src/lib.rs:261 says that any received frame clears the ping deadline.
  The blocked-read path (lines 160-168) does not clear it, even if frames were processed
  in the same call; `Client.WebSocket.ReadMessage` states what does happen.
* crates/kamekichi-ws/src/proto.rs:648-653 says that unfinished octets are carried to the
  next fragment; lines 686-692 forget octets when the fragment holds more than the stored
  piece (result 2 above).
* crates/kamekichi-ws/src/lib.rs:279-282 says the close is committed once queued; if the
  flush fails for good after the frame was queued, line 285 returns before the transition
  (result 4 above).
* crates/kamekichi-discord/src/http_api/client.rs:472 accepts a size with a plus sign and
  lines 470-471 accept any Unicode white space around it, both beyond section 4.1 of
  RFC 7230; lines 485-487 accept a body whose stream ends inside the trailers.

## Model

| member | source | states |
|---|---|---|
| Masking.ApplyMask | crates/kamekichi-ws/src/proto.rs:593-620 | in place, for every length, alignment and byte order, octet i is XORed with octet i mod 4 of the key |
| Masking.MaskHead | crates/kamekichi-ws/src/proto.rs:595-599 | the octets before the boundary are masked and no others |
| Masking.MaskTail | crates/kamekichi-ws/src/proto.rs:616-619 | the octets behind the last whole chunk are masked with the turned key, which completes the array |
| Masking.MaskChunks | crates/kamekichi-ws/src/proto.rs:612-615 | the wide loop finishes all whole 16-octet chunks from the aligned position and touches nothing else |
| Masking.RotateKey | crates/kamekichi-ws/src/proto.rs:601-609 | the key rotated by the head's length, in memory order, is the key turned by as many positions, on machines of either byte order |
| Masking.RotatedKey | crates/kamekichi-ws/src/proto.rs:603-608 | rotating the word right (little-endian) or left (big-endian) by 8k bits turns its octets by k positions |
| Masking.XorChunk | crates/kamekichi-ws/src/proto.rs:614 | one 128-bit XOR is sixteen XORs with the repeated key, in place |
| Masking.ChunkXor | crates/kamekichi-ws/src/proto.rs:609-614 | loading a chunk, XORing with the widened key and storing it is XORing octet by octet |
| Masking.MaskedInvolution | crates/kamekichi-ws/src/proto.rs:591-593 | masking twice with one key restores the payload |
| Utf8.ValidIffAllScanned | crates/kamekichi-ws/src/proto.rs:708-714 | the scan covers the whole input exactly when the input is well-formed |
| Utf8.RestHasNoChar | crates/kamekichi-ws/src/proto.rs:671-676 | the valid part of the first chunk is the longest: no character begins what follows it |
| Utf8.ScanResumes | crates/kamekichi-ws/src/proto.rs:662-701 | scanning a longer text is scanning what the shorter scan left over |
| Utf8.ViablePrefix | crates/kamekichi-ws/src/proto.rs:687-692 | every beginning of text that can become well-formed can itself become well-formed |
| Scalars.ValidIffEncoded | crates/kamekichi-ws/src/proto.rs:302-303 | well-formed octets are the arithmetic encodings of sequences of scalar values, one to four octets each, and nothing else is |
| Scalars.BadIsLongestBeginning | crates/kamekichi-ws/src/proto.rs:671-676 | the invalid part of the first chunk is the longest beginning of a character's encoding, or a single octet |
| TextAssembly.PushText | crates/kamekichi-ws/src/proto.rs:654-727 | an accepted fragment leaves a carried tail of at most 3 octets, none after the final one, and never more octets than came in |
| TextAssembly.PushFresh | crates/kamekichi-ws/src/proto.rs:703-726 | at a character boundary an accepted fragment loses nothing |
| TextAssembly.PushKeeps | crates/kamekichi-ws/src/proto.rs:677-693 | the text stays well-formed, and octets are lost exactly when the storing branch leaves some over |
| TextAssembly.PushViable | crates/kamekichi-ws/src/proto.rs:662-727 | as long as the text so far can become valid, a push is accepted and only scans it further |
| TextAssembly.ValidAssembles | crates/kamekichi-ws/src/proto.rs:654-727 | every fragmentation of valid UTF-8, from any point on, is accepted and yields exactly its octets |
| TextAssembly.ValidIffAcceptedWhole | crates/kamekichi-ws/src/proto.rs:654-727 | a message is UTF-8 if and only if its fragments are accepted without the losing branch |
| TextAssembly.AcceptedIsFaithfulIff | crates/kamekichi-ws/src/proto.rs:686-692 | an accepted message equals what was sent, and is UTF-8, if and only if the losing branch was never taken |
| TextAssembly.AssembledIsValid | crates/kamekichi-ws/src/proto.rs:697-713 | whatever the fragments, delivered text is well-formed UTF-8 |
| TextAssembly.RoomyFragmentsAreFaithful | crates/kamekichi-ws/src/proto.rs:666-693 | if every middle fragment is empty or has at least 3 octets, acceptance implies validity and equality |
| TextAssembly.DroppedOctetWitness | crates/kamekichi-ws/src/proto.rs:686-692 | C3, 41, A4 is not UTF-8 but in three fragments is delivered as C3 A4 |
| TextAssembly.RefusedPieceIsInvalid | crates/kamekichi-ws/src/proto.rs:681-717 | the pieces handed to `from_utf8` on the two error paths are never valid, so there is an error to unwrap |
| TextAssembly.RepairedIffValid | crates/kamekichi-ws/src/proto.rs:686-692 | with the storing branch refusing what it cannot store, every fragmentation is accepted if and only if the whole is UTF-8, and unchanged |
| Frames.ParseStable | crates/kamekichi-ws/src/proto.rs:167-233 | once a frame or an error is decided, more octets do not change it |
| Frames.LengthFieldParses | crates/kamekichi-ws/src/proto.rs:185-217 | the length octets of every length within the limit decode to it |
| Frames.ParsedLengthField | crates/kamekichi-ws/src/proto.rs:187-217 | accepted length octets are the one encoding of their length |
| Frames.ServerFrameParses | crates/kamekichi-ws/src/proto.rs:167-233 | every admissible frame is read back, whatever follows it |
| Frames.WholeIsServerFrame | crates/kamekichi-ws/src/proto.rs:174-226 | only encodings of admissible frames are accepted, one for each frame |
| Frames.ServerReadsClientFrame | crates/kamekichi-ws/src/proto.rs:570-589 | a server unmasks exactly the FIN bit, opcode and payload of the frame that was built, and finds its end |
| Frames.ClosePayloadIsReadBack | crates/kamekichi-ws/src/proto.rs:624-638 | every close payload that can be sent is accepted by the receiving check with the same code and reason |
| Frames.EchoRepeatsCode | crates/kamekichi-ws/src/proto.rs:737-754 | the echoed first two octets are an acceptable close with the same code |
| Messages.OnFrameKeeps | crates/kamekichi-ws/src/proto.rs:251-352 | every frame keeps reassembly within the limit and its text well-formed, messages respect the limit, and the length sums cannot wrap |
| Messages.TranscribePrefix | crates/kamekichi-ws/src/proto.rs:145-361 | more octets only add messages; an ended or broken stream is settled |
| Messages.TranscribeFirst | crates/kamekichi-ws/src/proto.rs:167-233 | the first frame of an encoded sequence is read first and leaves the rest |
| Messages.PingPongTransparent | crates/kamekichi-ws/src/proto.rs:342-349 | deleting all pings and pongs, even inside fragmented messages, leaves messages and ending unchanged |
| Messages.FragmentedTextOutcome | crates/kamekichi-ws/src/proto.rs:252-323 | the frames of any fragmentation within the limit, valid or not, deliver the fold's text and then the rest of the stream, or end it with a UTF-8 error |
| Messages.WhatBecomesOfText | crates/kamekichi-ws/src/proto.rs:252-323 | on the wire a text arrives as sent if and only if it is UTF-8, is refused if and only if the fold refuses it, and otherwise arrives shorter, through the losing branch |
| Messages.DroppedOctetOnTheWire | crates/kamekichi-ws/src/proto.rs:686-692 | three frames with C3, 41 and A4 deliver the text C3 A4 |
| Messages.FragmentedBinaryIsDelivered | crates/kamekichi-ws/src/proto.rs:276-323 | a binary message split in any way is delivered whole, then the rest of the stream |
| Wire.TextIsDeliveredIffScalars | crates/kamekichi-ws/src/proto.rs:252-323 | a text cut anywhere is delivered as it was sent if and only if it encodes a sequence of scalar values |
| Wire.DeliveredTextIsScalars | crates/kamekichi-ws/src/proto.rs:252-323 | whatever octets arrive, delivered text encodes scalar values |
| Wire.ShortTextFrame | crates/kamekichi-ws/src/proto.rs:293-307 | the octets 129, the length and the encoding of any scalar values deliver that text |
| Wire.FourOctetCharacter | crates/kamekichi-ws/src/proto.rs:302-307 | the frame 81 04 F0 9F 98 80 delivers U+1F600 |
| Wire.HeadIsByNumbers | crates/kamekichi-ws/src/proto.rs:167-226 | the parser reads every header as the values of its octets say, with each error in its place |
| Wire.OtherOpcodes | crates/kamekichi-ws/src/proto.rs:252-352 | opcodes 9 and 10 change nothing, 3 to 7 and from 11 on are refused, 0 is refused when nothing is being received, 1 and 2 when something is |
| Wire.BinaryOpcodes | crates/kamekichi-ws/src/proto.rs:276-323 | opcode 2 begins or delivers a binary message, opcode 0 continues it up to the limit |
| Wire.TextOpcode | crates/kamekichi-ws/src/proto.rs:293-307 | opcode 1 with FIN delivers its payload if it encodes scalar values and is refused otherwise |
| Wire.TextFragmentOpcodes | crates/kamekichi-ws/src/proto.rs:257-321 | opcode 1 without FIN begins a text, opcode 0 continues it while text, tail and payload are within the limit |
| Wire.CloseOpcode | crates/kamekichi-ws/src/proto.rs:325-336 | opcode 8 ends the connection with its code and reason, or is refused |
| Wire.CloseByNumbers | crates/kamekichi-ws/src/proto.rs:733-747 | which codes and reasons of a close frame are accepted, and the error for each other payload |
| Wire.ClosePayloadByNumbers | crates/kamekichi-ws/src/proto.rs:624-638 | which codes and reasons can be sent, the error for the others, and the payload's octets |
| Wire.ClientFrameByNumbers | crates/kamekichi-ws/src/proto.rs:570-589 | first octet, length octets, mask and masked payload of every frame sent, as numbers |
| Delivery.StepOutlook | crates/kamekichi-ws/src/proto.rs:122-361 | no step changes the messages delivered and still to come; an abort only cuts them short |
| Delivery.DeliveredIsTheTranscript | crates/kamekichi-ws/src/proto.rs:122-361 | in every run the delivered messages are a beginning of the pure reading, all of it when nothing whole is left, and the ending is the one the octets call for |
| Delivery.RunsAgree | crates/kamekichi-ws/src/proto.rs:122-361 | two runs over the same octets deliver comparable sequences, and end alike if both end on their own |
| Delivery.FragmentedTextReachesApplication | crates/kamekichi-ws/src/proto.rs:252-349 | a fragmented text, valid or not and with pings in between: in every run that was not cut off the application gets the one text of the fold, or nothing and a UTF-8 error |
| Delivery.BoundsAlwaysHold | crates/kamekichi-ws/src/proto.rs:237-289 | in every run reassembly buffers and delivered messages are within the limit, and delivered text is UTF-8 |
| Outbound.WireIsCommittedFrames | crates/kamekichi-ws/src/send_buf.rs:76-92 | accepted octets followed by queued octets are the committed frames in order, in every run |
| Outbound.ServerReadsCommittedFrames | crates/kamekichi-ws/src/lib.rs:184-212 | at any moment a server has read a beginning of the committed frames, all of them when nothing is queued |
| Outbound.CommittedFramesAreSendable | crates/kamekichi-ws/src/lib.rs:184-291 | every frame committed in any run has opcode 1, 2, 8, 9 or 10, and a control frame at most 125 octets |
| Outbound.StepGrammar | crates/kamekichi-ws/src/lib.rs:283-290 | one step keeps the closing handshake, and leaks a close exactly when a close frame's flush fails for good |
| Outbound.CommittedFramesObeyGrammar | crates/kamekichi-ws/src/lib.rs:137-175 | data, pings and pongs, then at most one close, then only pongs, in every run without such a failure |
| Outbound.LeakBreaksGrammar | crates/kamekichi-ws/src/lib.rs:283-290 | after a leaked close two more steps send a ping behind the close |
| Outbound.FailedCloseLeaks | crates/kamekichi-ws/src/lib.rs:283-290 | a close on a new connection whose flush fails for good is such a leak |
| Outbound.GrammarBreaks | crates/kamekichi-ws/src/lib.rs:283-290 | a complete run of three steps from a new connection that sends a ping behind a close |
| Outbound.GrammarHoldsIffNotLeaked | crates/kamekichi-ws/src/lib.rs:283-290 | from a state that obeys the handshake, all continuations obey it if and only if no close was leaked |
| Outbound.CloseStateAdvances | crates/kamekichi-ws/src/proto.rs:325-347 | the close state never moves back, histories only grow, and a closed connection commits and delivers nothing |
| Outbound.SeenIsConsumed | crates/kamekichi-ws/src/read_buf.rs:163-190 | the peer's octets are the processed frames followed by what is unread |
| Outbound.StepPongs | crates/kamekichi-ws/src/proto.rs:342-347 | a step adds a pong exactly when it processed a ping with room in the send buffer |
| Outbound.PongsAnswerPings | crates/kamekichi-ws/src/proto.rs:342-347 | of the peer's pings, in order, exactly those owed are answered, none twice; these are all of them if the buffer stays below its target size throughout |
| Outbound.PongsAreThoseOwed | crates/kamekichi-ws/src/proto.rs:342-347 | in every run, from any state, the pongs committed are exactly the payloads of the pings processed with pending output below the target size, in order |
| Outbound.PendingOutputIsBounded | crates/kamekichi-ws/src/proto.rs:343-347 | queued octets are at most the larger of the last user frame and the target size plus 130, plus 8 once closed |
| Reading.ReceiveIsOnWire | crates/kamekichi-ws/src/proto.rs:235-352 | a received frame changes what reading decides as a pass over octets at hand does |
| Reading.SendingKeepsCore | crates/kamekichi-ws/src/lib.rs:184-291 | sending and draining change nothing that reading decides |
| Reading.PassesAdd | crates/kamekichi-ws/src/proto.rs:146-361 | passes made in several calls are the passes of one |
| Reading.ReachedThen | crates/kamekichi-ws/src/lib.rs:137-175 | stretches of passes join, also if one of them was cut off from outside |
| Reading.OneContinuesTheOther | crates/kamekichi-ws/src/proto.rs:146-361 | of two connections with the same octets, buffer length, events and draws, the one that made more passes continues the other |
| Leftovers.ShortLeftoverIsFresh | crates/kamekichi-ws/src/read_buf.rs:247-270 | after any number of passes a leftover buffer of at most 4096 octets leads where a new one leads |
| Leftovers.LongLeftoverFloods | crates/kamekichi-ws/src/proto.rs:235-246 | a longer one takes two frames of 4097 octets in one read, and the second frame trips a limit of 1 |
| Leftovers.NewBufferDoesNotFlood | crates/kamekichi-ws/src/proto.rs:235-246 | a new one needs a small read for the last octet, and the same octets never trip the limit |
| Leftovers.HarmlessIffShort | crates/kamekichi-ws/src/read_buf.rs:247-270 | a leftover length has no influence, over all limits, octets, events and draws, if and only if it is at most 4096 |
| Leftovers.ShortLeftoverConnects | crates/kamekichi-ws/src/read_buf.rs:214-264 | a leftover buffer of at most 8704 octets leaves the same after the handshake as a new one |
| Leftovers.GreetingOutcome | crates/kamekichi-ws/src/proto.rs:235-246 | behind a response of 16 octets the second of two frames trips a limit of 1 if and only if the buffer was longer |
| Leftovers.HarmlessToConnectIffShort | crates/kamekichi-ws/src/read_buf.rs:214-264 | for a client that connects, a leftover length has no influence, over all limits, octets, events and draws, if and only if it is at most 8704 |
| Pressure.WireScore | crates/kamekichi-ws/src/proto.rs:235-285 | one frame's effect on the score, paid for by the frame, the octets its pass fetched and its message's relief |
| Pressure.PassScore | crates/kamekichi-ws/src/proto.rs:235-285 | the same of one pass, whatever it fetches |
| Pressure.FramesAreBudgeted | crates/kamekichi-ws/src/proto.rs:235-285 | without a flood error the frames processed are at most the limit plus those whose pass fetched 1 to 127 octets plus total relief |
| Pressure.TrickleNeverFloods | crates/kamekichi-ws/src/proto.rs:237-246 | if every frame's pass fetches 1 to 127 octets the score stays at most 1 (or where it began) and no limit of at least 1 trips |
| Pressure.ProcessedIsConsumed | crates/kamekichi-ws/src/proto.rs:228-230 | the frames counted are the peer's: the octets read are their encodings |
| Transport.Stream.Read | crates/kamekichi-ws/src/read_buf.rs:266-292 | the environment's read: a beginning of the octets to come, an interruption, a block or a failure |
| Transport.Stream.Write | crates/kamekichi-ws/src/send_buf.rs:76-84 | the environment's write: accepts a beginning of the data, or is interrupted, blocks or fails; hard outcomes are counted |
| ReadBuffer.ReadBuf.ReadOnce | crates/kamekichi-ws/src/read_buf.rs:266-293 | one read, retried on interruption, appends exactly what left the stream, as much as buffer, events and octets allow |
| ReadBuffer.ReadBuf.EnsureInitialized | crates/kamekichi-ws/src/read_buf.rs:247-264 | room past the target is made, to exactly the length the code asks for, and no octet of the buffer changes |
| ReadBuffer.ReadBuf.FillFrom | crates/kamekichi-ws/src/read_buf.rs:181-190 | filled exactly if enough is pending; nothing lost or moved on failure, and the failure is the stream's last event; what is fetched is a function of cursors, length and events |
| ReadBuffer.ReadBuf.FillKeepsQueue | crates/kamekichi-ws/src/read_buf.rs:178-190 | pending octets followed by unread octets are one queue that a fill does not change |
| ReadBuffer.ReadBuf.Consume | crates/kamekichi-ws/src/read_buf.rs:163-170 | the only operation that shortens the queue, from its front |
| ReadBuffer.ReadBuf.Compact | crates/kamekichi-ws/src/read_buf.rs:301-311 | pending octets move to the front unchanged |
| ReadBuffer.ReadBuf.MaybeCompact | crates/kamekichi-ws/src/read_buf.rs:318-325 | compacts exactly when all is consumed or the prefix exceeds the threshold and half the data; pending octets unchanged |
| ReadBuffer.ReadBuf.MaybeShrinkCapacity | crates/kamekichi-ws/src/read_buf.rs:334-340 | shrinking drops spare memory only |
| ReadBuffer.ReadBuf.Clear | crates/kamekichi-ws/src/read_buf.rs:342-346 | nothing is pending afterwards |
| SendBuffer.SendBuf.Push | crates/kamekichi-ws/src/send_buf.rs:53-61 | appends to what is pending |
| SendBuffer.SendBuf.WriteOnce | crates/kamekichi-ws/src/send_buf.rs:76-84 | one write moves octets to the stream; the loop stops at a block, a failure or an acceptance of nothing |
| Transport.Stream.FlushTransport | crates/kamekichi-ws/src/send_buf.rs:76-92 | the environment's flush: any outcome, recorded with how much the stream had accepted |
| SendBuffer.SendBuf.Flush | crates/kamekichi-ws/src/send_buf.rs:74-86 | moves a beginning of the pending octets to the stream, as far as its events allow; succeeds exactly when none are left, else the stream's last write event says why |
| SendBuffer.SendBuf.TryFlush | crates/kamekichi-ws/src/send_buf.rs:88-92 | drains as far as the stream's events allow: afterwards nothing is pending, or the last write made was refused |
| SendBuffer.KeepsUpThen | crates/kamekichi-ws/src/send_buf.rs:88-92 | stretches that drain what they queue, or meet a refused write, join to one that does |
| SendBuffer.SendBuf.MaybeShrink | crates/kamekichi-ws/src/send_buf.rs:94-102 | releases memory without touching pending octets |
| SendBuffer.SendBuf.Clear | crates/kamekichi-ws/src/send_buf.rs:112-116 | nothing is pending afterwards |
| FrameIo.BuildFrame | crates/kamekichi-ws/src/proto.rs:569-589 | appends exactly one final, masked frame with the given opcode and payload |
| FrameIo.PushHeader | crates/kamekichi-ws/src/proto.rs:571-583 | appends the first octet and the shortest length octets |
| FrameIo.MaskLast | crates/kamekichi-ws/src/proto.rs:588 | masks the last octets of the buffer and no others |
| FrameIo.ReadFrame | crates/kamekichi-ws/src/proto.rs:164-249 | agrees with the pure parser on the whole wire in every outcome, consumes exactly the frame and leaves its payload in place |
| FrameIo.ReadHead | crates/kamekichi-ws/src/proto.rs:167-226 | the header is decided with the fewest fills the code makes, and as the pure parser decides it |
| FrameIo.TakeFrame | crates/kamekichi-ws/src/proto.rs:228-249 | the frame behind a decided header is taken whole or not at all |
| FrameIo.TextBuffer.Push | crates/kamekichi-ws/src/proto.rs:654-727 | the text and tail buffers change as the fold says, and the error cases coincide |
| FrameIo.TextBuffer.PushRest | crates/kamekichi-ws/src/proto.rs:703-726 | the single pass over fresh data, with its error case |
| FrameIo.TextBuffer.SaveTail | crates/kamekichi-ws/src/proto.rs:687-692 | the tail array then holds exactly the given octets |
| Client.WebSocket.constructor | crates/kamekichi-ws/src/lib.rs:319-334 | a new client on a stream is in the fresh state with the default limits and an empty read buffer |
| Client.WebSocket.Commit | crates/kamekichi-ws/src/proto.rs:570-589 | building a frame appends it to the queue and to the history |
| Client.WebSocket.DrainQueue | crates/kamekichi-ws/src/send_buf.rs:76-86 | a flush is a drain of some octets, complete exactly when it succeeds |
| Client.WebSocket.SendFrame | crates/kamekichi-ws/src/lib.rs:184-212 | Done and Queued commit exactly one frame, RetryLater and a closing connection none; Done leaves nothing queued; the result and how far the queue drains are functions of the queue and the stream's events |
| Client.WebSocket.BuildAndFlush | crates/kamekichi-ws/src/lib.rs:195-211 | with an empty queue the frame is committed, then drained as far as the stream takes it |
| Client.WebSocket.SendText | crates/kamekichi-ws/src/lib.rs:246-248 | commits at most one text frame with the given octets |
| Client.WebSocket.SendBinary | crates/kamekichi-ws/src/lib.rs:251-253 | commits at most one binary frame with the given octets |
| Client.WebSocket.SendPing | crates/kamekichi-ws/src/lib.rs:266-272 | arms the deadline exactly when the ping was built without a hard error |
| Client.WebSocket.SendClose | crates/kamekichi-ws/src/lib.rs:283-290 | rejects bad codes and long reasons, commits a close the peer can read back, and moves to CloseSent unless it must be retried or failed; a leaked close means that a write failed for good in this call |
| Client.WebSocket.Flush | crates/kamekichi-ws/src/lib.rs:219-243 | with octets left the result is what the last write event calls for, a block, a closed stream or an I/O error; with none left it is the outcome of the transport's flush |
| Client.WebSocket.PushOut | crates/kamekichi-ws/src/lib.rs:236-243 | the transport is flushed once, with all it had accepted |
| Client.WebSocket.Maintain | crates/kamekichi-ws/src/proto.rs:147-162 | compaction and shrinking have no visible effect but on the buffer's cursors and length, as the pure passes have it |
| Client.WebSocket.Relieve | crates/kamekichi-ws/src/proto.rs:272-273 | the score falls by one, or by one for every 127 octets of a message of at least 254, not below 0 |
| Client.WebSocket.Score | crates/kamekichi-ws/src/proto.rs:235-243 | the score rises by one, but not from above 0 if the pass fetched 1 to 127 octets |
| Client.WebSocket.OnContinuation | crates/kamekichi-ws/src/proto.rs:252-291 | agrees with the reference on continuation frames |
| Client.WebSocket.ContinueText | crates/kamekichi-ws/src/proto.rs:257-275 | agrees with the reference on text continuations: limit, UTF-8, completion, relief |
| Client.WebSocket.ContinueBinary | crates/kamekichi-ws/src/proto.rs:276-287 | agrees with the reference on binary continuations |
| Client.WebSocket.OnData | crates/kamekichi-ws/src/proto.rs:293-323 | agrees with the reference on text and binary frames, first fragments included |
| Client.WebSocket.OnClose | crates/kamekichi-ws/src/proto.rs:325-336 | closes, delivers the close or fails, and echoes at most the first two octets, once, if the connection was open |
| Client.WebSocket.Echo | crates/kamekichi-ws/src/proto.rs:748-756 | the echo is committed as one close frame; afterwards nothing is queued or the stream refused a write |
| Client.WebSocket.OnPing | crates/kamekichi-ws/src/proto.rs:342-347 | commits a pong with the same payload exactly when there is room; afterwards nothing is queued or the stream refused a write |
| Client.WebSocket.Dispatch | crates/kamekichi-ws/src/proto.rs:251-352 | every opcode leads where the reference step leads |
| Client.WebSocket.NextFrame | crates/kamekichi-ws/src/proto.rs:164-249 | reading a frame removes it from the wire and changes nothing else; a failed read changes nothing |
| Client.WebSocket.FetchNext | crates/kamekichi-ws/src/proto.rs:147-249 | the first half of a turn fetches exactly what a pass fetches |
| Client.WebSocket.Turn | crates/kamekichi-ws/src/proto.rs:146-360 | one turn of the loop is exactly one pass and at most one received frame, always makes progress, and blocks only if the buffer holds no whole frame |
| Client.WebSocket.Settle | crates/kamekichi-ws/src/proto.rs:235-360 | the second half of a turn completes the pass: the end of the connection, or one frame scored by what was fetched |
| Client.WebSocket.Handle | crates/kamekichi-ws/src/proto.rs:235-352 | scoring, flood check and dispatch of one frame are one receive step and a drain |
| Client.WebSocket.FlushBeforeReading | crates/kamekichi-ws/src/proto.rs:128-144 | a half-sent frame is finished first; a blocked write does not stop the read, a failed one ends it |
| Client.WebSocket.ReadLoop | crates/kamekichi-ws/src/proto.rs:122-361 | the flush, then a number of passes: at most the budget, all of it when the budget ends the loop, the last one stalled when it blocks; only a failed flush cuts it off |
| Client.WebSocket.Turns | crates/kamekichi-ws/src/proto.rs:145-361 | the loop itself: its turns are that many passes, and it terminates |
| Client.WebSocket.OnSilence | crates/kamekichi-ws/src/lib.rs:160-168 | a blocked read times out exactly when the deadline has passed, and otherwise keeps it |
| Client.WebSocket.GiveUp | crates/kamekichi-ws/src/lib.rs:170-173 | an error closes the connection |
| Client.WebSocket.ReadMessage | crates/kamekichi-ws/src/lib.rs:137-175 | the call is a run of the transition system and a number of passes, which fix what was fetched for each frame; returns a message exactly when one was delivered, is idle only if blocked or out of budget, clears the ping deadline unless it blocked, and every error closes: the end of the stream as a closed connection, every other with its own error; afterwards nothing is queued and all is flushed, or the stream refused a write |
| Client.WebSocket.Answer | crates/kamekichi-ws/src/lib.rs:147-174 | each outcome of the loop leads to its result, ping deadline and close state |
| Client.WebSocket.Disconnect | crates/kamekichi-ws/src/lib.rs:471-476 | buffers and protocol state are reset; configuration, buffer length and draws stay |
| Client.WebSocket.Reuse | crates/kamekichi-ws/src/lib.rs:332-334 | after disconnecting, a client with a new stream is in the state of a fresh one, with the read buffer's old length |
| Client.WebSocket.Configure | crates/kamekichi-ws/src/lib.rs:481-519 | the setters clamp into the limits every other proof relies on |
| Sessions.Perform | crates/kamekichi-ws/src/lib.rs:121-291 | every public call is a run of the transition system and a number of passes; without a hard write no close is leaked |
| Sessions.Transmit | crates/kamekichi-ws/src/lib.rs:184-291 | the calls that do not read leave alone all that reading decides |
| Sessions.Connect | crates/kamekichi-ws/src/lib.rs:370-393 | a client in any state connects exactly if the response is accepted, and is then fresh, with exactly the octets behind the header to read and a stated buffer, events and draws; a refusal leaves it reset |
| Sessions.Respond | crates/kamekichi-ws/src/proto.rs:441-563 | on a client just given its stream, an accepted response leaves it connected with exactly the octets behind the header, and with what the search fetched |
| Sessions.Calls | crates/kamekichi-ws/src/lib.rs:121-291 | any calls together are one run and one number of passes |
| Sessions.Session | crates/kamekichi-ws/src/lib.rs:121-291 | for any calls on a connected client: delivery and ending, wire integrity, exactly the pongs owed, the bound on pending output, flood accounting on octets fetched, and the closing handshake unless a write failed for good |
| Sessions.Conversation | crates/kamekichi-ws/src/lib.rs:121-393 | from the opening handshake on, all that holds of a session holds of what follows the header, for any client, calls and stream; its reads fetch what buffer length, events and draws call for |
| Pairs.ReusedAndNew | crates/kamekichi-ws/src/lib.rs:471-476 | a reused and a new client on the same octets, with any calls, schedules and writes, deliver comparable messages and end alike unless cut off; each makes the passes its buffer and stream call for, and after a leftover buffer of at most 4096 octets, on equal schedules and draws, they are in the same reading state, flood error included |
| Pairs.ReusedAndNewConnect | crates/kamekichi-ws/src/lib.rs:370-393 | the same of two clients that connect: after a leftover buffer of at most 8704 octets, on equal schedules and draws, one connects if and only if the other does, and they are in the same reading state |
| Pairs.SameCore | crates/kamekichi-ws/src/proto.rs:113-119 | the same of the passes the two made |
| Witnesses.PingBehindClose | crates/kamekichi-ws/src/lib.rs:283-290 | a new client whose first write fails returns an I/O error for the close, then sends a ping; the server gets both frames |
| Witnesses.ReadTwice | crates/kamekichi-ws/src/proto.rs:235-246 | two reads of 4097 octets end in a flood error if and only if the client came with more than 4096 octets of read buffer |
| Witnesses.SecondTimeFloods | crates/kamekichi-ws/src/lib.rs:471-476 | one client reads the same octets on two connections: the second is given up as a flood |
| Witnesses.ConnectAndReadTwice | crates/kamekichi-ws/src/lib.rs:370-393 | a client connects and reads twice: a flood error if and only if it came with more than 8704 octets of read buffer |
| Witnesses.SecondConnectionFloods | crates/kamekichi-ws/src/lib.rs:370-393 | a client that has read one large frame connects and is given up as a flood where a new client is not |
| Handshake.VerdictIsUnique | crates/kamekichi-ws/src/proto.rs:447-470 | the one-shot search has exactly one answer |
| Handshake.VerdictIsStable | crates/kamekichi-ws/src/proto.rs:447-470 | a settled answer holds for every longer stream |
| Handshake.HeaderScan.NextLineFeed | crates/kamekichi-ws/src/proto.rs:450 | the first line feed of what is new, if any |
| Handshake.HeaderScan.RecordLine | crates/kamekichi-ws/src/proto.rs:451-464 | one more line: blank, one too many, or recorded and consistent |
| Handshake.HeaderScan.Check | crates/kamekichi-ws/src/proto.rs:447-470 | the resumable callback answers as the one-shot search on all data so far |
| Handshake.ReadUntil | crates/kamekichi-ws/src/read_buf.rs:214-245 | the outcome is the one-shot search's on the whole stream, for every split, and the limit arm is never taken; what is fetched is a function of buffer, octets and events |
| Handshake.StatusOctetInBounds | crates/kamekichi-ws/src/proto.rs:487-495 | the octet after the status text is always there |
| Handshake.SplitLines | crates/kamekichi-ws/src/proto.rs:510-533 | the recorded positions cut the header into its lines |
| Handshake.TakeHeader | crates/kamekichi-ws/src/proto.rs:510-563 | the header is split into its lines and consumed; the octets behind it move to the front |
| Handshake.BlankAfter | crates/kamekichi-ws/src/proto.rs:457-461 | the gap test of the callback is the test for a blank line |
| Responses.HeaderOfLines | crates/kamekichi-ws/src/proto.rs:447-470 | non-blank lines and a blank one, each ended by a line feed with or without a carriage return, are the header if they hold at most 8192 octets and 64 lines, and too large otherwise |
| Responses.StatusByOctets | crates/kamekichi-ws/src/proto.rs:487-495 | such a header has the status exactly if its first line is the octets of `HTTP/1.1 101`, alone or before a space or carriage return |
| Responses.ResponseIsAnswered | crates/kamekichi-ws/src/proto.rs:441-495 | if the reads bring it, in however many pieces and interruptions, such a response is accepted, and one with another first line is refused for its status |
| Responses.LinesAreCut | crates/kamekichi-ws/src/proto.rs:510-533 | the lines handed to the field checks are the lines sent, each without its line end |
| Handshake.ReadResponse | crates/kamekichi-ws/src/proto.rs:441-563 | accepts exactly a header with status 101 that arrives, refuses exactly one with another status that arrives, consumes exactly the header, and leaves every later octet for read_message, in a buffer of stated length |
| Chunked.FindCrlf | crates/kamekichi-discord/src/http_api/client.rs:459-461 | the first line end, or none |
| Chunked.ScanStable | crates/kamekichi-discord/src/http_api/client.rs:456-527 | a settled answer does not depend on what follows or on how octets arrive |
| Chunked.EncodedIsDecoded | crates/kamekichi-discord/src/http_api/client.rs:446-451 | every well-formed body within the limit, with any extensions, trailers and following octets, is decoded to its data without waiting for more |
| Chunked.AcceptedIsEncoded | crates/kamekichi-discord/src/http_api/client.rs:456-527 | an accepted body is the data of chunks the stream begins with, and within the limit |
| Chunked.AcceptedIffEncoded | crates/kamekichi-discord/src/http_api/client.rs:446-530 | a body is the answer if and only if it is the data of a well-formed chunk list within the limit |
| SizeLines.SizeIffLine | crates/kamekichi-discord/src/http_api/client.rs:470-472 | a line has a size if and only if it is well-formed text that writes it: white space, perhaps a plus sign, digits of either case by their tables, white space, an extension, in 64 bits |
| SizeLines.SpelledReads | crates/kamekichi-discord/src/http_api/client.rs:472 | every size below 2^64, spelled with any choice of case for each digit, reads back |
| SizeLines.StrayOctet | crates/kamekichi-discord/src/http_api/client.rs:470-472 | a line with any other ASCII octet before the extension is malformed |
| SizeLines.UpperCaseBody | crates/kamekichi-discord/src/http_api/client.rs:456-527 | the body that announces its ten octets as `A` is decoded to them |
| Chunked.SearchCrlf | crates/kamekichi-discord/src/http_api/client.rs:459-461 | the search from a position finds the first line end after it |
| Chunked.ReadSome | crates/kamekichi-discord/src/http_api/client.rs:462-467 | one read of at most 4096 octets: octets in hand and unread stay what they were, and the log shows what was in hand |
| Chunked.AwaitCrlf | crates/kamekichi-discord/src/http_api/client.rs:458-468 | reads until a line end is in hand; at the last read, if any, none was |
| Chunked.AwaitOctets | crates/kamekichi-discord/src/http_api/client.rs:507-514 | reads until enough octets are in hand; at the last read, if any, they were not |
| Chunked.ReadTrailers | crates/kamekichi-discord/src/http_api/client.rs:476-496 | the trailer loop ends at the empty line or the end of the stream, as the pure decoder does |
| Chunked.CompactBeyond | crates/kamekichi-discord/src/http_api/client.rs:522-526 | compaction keeps every unconsumed octet |
| Chunked.ReadData | crates/kamekichi-discord/src/http_api/client.rs:498-526 | both limits, the data and its line end, as the pure decoder checks them |
| Chunked.ReadChunk | crates/kamekichi-discord/src/http_api/client.rs:456-527 | one pass takes a whole chunk or gives the pure decoder's answer |
| Chunked.ReadChunkedBody | crates/kamekichi-discord/src/http_api/client.rs:451-530 | unless a read fails the answer is the pure decoder's on leftover and stream, for every split; at the last read, if any, the octets in hand had not settled it, and if the leftover settles it no read is made; never more than 16 MiB |
| Heartbeat.StepOnTrack | crates/kamekichi-discord/src/heartbeat.rs:69-170 | one timely pass of the loop keeps the due time and the wake-up within bounds of the last acknowledgement |
| Heartbeat.ZombieRaisedInTime | crates/kamekichi-discord/src/heartbeat.rs:69-118 | no pass of a timely run begins later than 2 intervals + 1 ms + the loop's delays after the last acknowledgement; one that begins more than 2 intervals after it with a heartbeat outstanding gives up |
| Heartbeat.BoundIsReached | crates/kamekichi-discord/src/heartbeat.rs:106-118 | a timely run without delays that raises the error exactly 2 intervals + 1 ms after the last acknowledgement |
| Heartbeat.AnsweredIsNeverZombied | crates/kamekichi-discord/src/heartbeat.rs:69-103 | if every heartbeat is acknowledged within the interval less 1 ms and the loop's delays, no error is ever raised |
| Heartbeat.StartsOnTrack | crates/kamekichi-discord/src/heartbeat.rs:44-51 | a new state satisfies what both theorems need, whatever the jitter |
| Heartbeat.HeartbeatState.Create | crates/kamekichi-discord/src/heartbeat.rs:36-52 | rejects exactly 0 and more than 5 minutes; otherwise the first heartbeat is due after the jittered wait |
| Heartbeat.HeartbeatState.BackstopCheck | crates/kamekichi-discord/src/heartbeat.rs:69-75 | fails exactly when an acknowledgement has been outstanding for more than two intervals at its one reading of the clock |
| Heartbeat.HeartbeatState.HeartbeatCheck | crates/kamekichi-discord/src/heartbeat.rs:81-90 | due, not due or given up, from its two clock readings |
| Heartbeat.HeartbeatState.ReceiveAck | crates/kamekichi-discord/src/heartbeat.rs:95-100 | clears an outstanding flag and records the time; a spurious acknowledgement changes nothing |
| Heartbeat.HeartbeatState.PollTimeout | crates/kamekichi-discord/src/heartbeat.rs:106-118 | the smaller of the two waits, each at least 1 ms |
| Heartbeat.HeartbeatState.Send | crates/kamekichi-discord/src/heartbeat.rs:123-143 | a frame that is taken sets the flag and the next due time; one that is not changes nothing |
| Heartbeat.HeartbeatState.SendIfDue | crates/kamekichi-discord/src/heartbeat.rs:146-156 | agrees with the first half of a pass, at the readings it took |
| Heartbeat.HeartbeatState.ServerRequested | crates/kamekichi-discord/src/heartbeat.rs:161-169 | agrees with a requested heartbeat in a pass, at the readings it took |
| Heartbeat.HandleInput | crates/kamekichi-discord/src/gateway/mod.rs:447-455 | an acknowledgement is recorded, a requested heartbeat is sent, and any other message does nothing |
| Heartbeat.ShownSnoc | crates/kamekichi-discord/src/gateway/mod.rs:430-455 | one more pass that is what its turn calls for adds its readings to those of the run |
| Heartbeat.OnePass | crates/kamekichi-discord/src/gateway/mod.rs:431-455 | one pass of the polling loop is one step of the pure run: what the turn's message calls for, at exactly the readings taken of the clock |
| Heartbeat.Poll | crates/kamekichi-discord/src/gateway/mod.rs:430-455 | the loop is a run with one pass for each message until it fails, each what its message calls for, and its readings are exactly those taken of the clock; if it is timely, a dead connection is noticed in time and an answered one is not given up |
| Tsv.EscapeOne | crates/kamekichi/src/lib.rs:16-21 | the chain of replacements maps each character to its own escape sequence |
| Tsv.EscapeRoundTrips | crates/kamekichi/src/lib.rs:16-49 | unescaping an escaped text restores it, and escaped text has no tab or line break |
| Tsv.UnescapeLoop | crates/kamekichi/src/lib.rs:28-49 | the loop over characters computes the recursive reading, unknown and unfinished sequences included |
| Tsv.NumberRoundTrips | crates/kamekichi/src/state.rs:30-38 | every 64-bit number is parsed back from its decimal text |
| Tsv.ParsesIffWritten | crates/kamekichi/src/state.rs:30-38 | a text parses as a number if and only if it is its decimal digits, perhaps behind a plus sign, within 64 bits |
| Tsv.DecimalWrites | crates/kamekichi/src/state.rs:81-98 | a number is displayed by its decimal digits without a leading zero |
| Tsv.LinesOfText | crates/kamekichi/src/state.rs:24 | every text is cut at its line feeds, each line loses one carriage return at its end, and what is behind the last line feed is kept as it is |
| Tsv.SplitKeepsRest | crates/kamekichi/src/state.rs:25 | tabs beyond the last of five fields stay in it |
| Tsv.NumberFieldIff | crates/kamekichi/src/state.rs:28-38 | a field has a number if and only if it is the prefix and a text that parses as it |
| Tsv.SplitUndoesJoin | crates/kamekichi/src/state.rs:25 | splitting at tabs undoes joining tab-free fields |
| StateFile.Load | crates/kamekichi/src/state.rs:19-73 | the loop over lines computes the recursive reading; an unreadable file gives the empty state |
| StateFile.MessageReads | crates/kamekichi/src/state.rs:81-87 | a printed message entry is read back, whatever its name holds |
| StateFile.ChannelReads | crates/kamekichi/src/state.rs:91-93 | a printed channel entry is read back |
| StateFile.RoleReads | crates/kamekichi/src/state.rs:96-98 | a printed role entry is read back |
| StateFile.ListingIsUnique | crates/kamekichi/src/state.rs:78-79 | a set of keys has only one sorted listing |
| KeyOrder.LessIsByOctets | crates/kamekichi/src/state.rs:78-95 | the order of keys by characters is the order of their UTF-8 octets |
| StateFile.SortedKeys | crates/kamekichi/src/state.rs:78-95 | keys in any order are collected and sorted |
| StateFile.SavedLoadsBack | crates/kamekichi/src/state.rs:19-98 | every state is loaded back whole from its saved text |
| StateFile.SavedTextIsUnique | crates/kamekichi/src/state.rs:75-98 | equal states have the same text, whatever order the maps give |
| StateFile.Save | crates/kamekichi/src/state.rs:75-98 | the text written is the saved text and loads back as the state |

## Left out

- TLS, TCP, DNS, the quality of random masks, base64 and the SHA-1 accept key: foreign code; masks are arbitrary values.
- Handshake.ReadResponse: does not model the header-field checks (`Sec-WebSocket-Accept`, `Upgrade`, `Connection`, subprotocols), because they are string plumbing after the line scan; it hands over the lines, and `Accepted` means that the scan and the status are. Sessions.Connect and Sessions.Conversation take the checks' outcome as a parameter.
- The text of the handshake request, and writing it.
- Sessions.Connect: does not model the header-field checks; their outcome is the parameter `fieldsOk`.
- Sessions.Conversation: does not model the header-field checks either.
- `Vec` capacity and reallocation: shrinking is modelled as its visible effect on length and content. Whether the capacity exceeds the target and whether the draw came up are one entry of the client's `draws`, so equal draws mean equal decisions to shrink.
- `last_activity`: a reading of the clock that nothing in the crate uses.
- FrameIo.MaskLast: does not model the mutable borrow of the end of the send buffer; the octets go through an array that `apply_mask` changes in place.
- Borrowed payloads: a `Message` is a value here; that the payload still lies in the read buffer until the next compaction is stated by FrameIo.ReadFrame.
- The detail inside `InvalidUtf8` errors, and I/O error kinds beyond blocked, interrupted, closed and failed; `TimedOut` counts as blocked.
- The reason a connection was closed is kept in the model only, to state how it ended; the program keeps the fact.
- A flush of the transport below the stream has an arbitrary outcome and moves no octets of the model; the outcome is recorded, and `Client.WebSocket.Flush` returns what it calls for.
- Configuration is fixed while a connection is open; `Client.WebSocket.Configure` is meant for a client between connections, as the builder methods are.
- `read_fixed_body`, the request side, retries and rate limits of the HTTP client: I/O with only easy bounds. The UTF-8 check of the finished body follows `read_chunked_body` and is not part of it.
- Heartbeat.Poll: does not model the text of the heartbeat frame or the frame's way through the client, because whether the frame was taken is all the state depends on: each turn says so; jitter is an arbitrary wait up to the interval instead of a floating-point product; that a read returns within its timeout is a hypothesis of the theorems (`Timely`, with `lag` for the loop's own delays), because the operating system enforces it, and a read call that loops over several frames counts its extra waits in `lag`. The handshake loop, which waits no longer than this one, is not modelled separately.
- Heartbeat.StepOnTrack: bounds are stated with four times the delay `lag`; without delays they are 2 intervals + 1 ms.
- Heartbeat.HeartbeatState.Send: does not model the text of the heartbeat frame, and takes the outcome of the send as a parameter.
- StateFile.SortedKeys: does not model the library's sort, because only its result matters: the keys are drawn in any order and inserted in place.
- Writing the state file to disk, syncing and renaming; only its text is modelled. `content_hash` is a library digest.
- JSON, events, the bot runner, role tracking, references, configuration watching and logging: library code or map bookkeeping.
