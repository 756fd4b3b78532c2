# A verified model of the nginx NATS client

The repository is an nginx module that holds a NATS client: each worker keeps one connection to the first of a
list of NATS servers that works, other modules register as clients, publish and subscribe through it, and get
told when the connection comes and goes. This project models the parts of it that carry the logic and proves
what they promise, for every input, every division of the stream into reads and every run of events:

- **The wire parser** (`Wire`, `WireGrammar`, `WireStability`, `WireContent`, `WireOverflow`,
  `WireInPlace`). `Wire.Parse` says what the parser
  answers on the bytes received so far; `WireInPlace` is the parser as it runs, on an array into which it writes
  NULs. It recognises exactly
  the texts of an explicit grammar and refuses exactly what can no longer become one by its rules. Verdicts are stable
  under more input, frames are self-contained, printed frames are read back, and the writes stay inside the recognised
  frame.
- **The buffer and the read loop** (`Buffer`, `BufferObject`, `ReadLimits`, `Stream`, `ReadLoop`). `Stream.Drain`
  reads a whole stream by parsing from the front again and again; `ReadLimits.Load` does the same through a buffer of
  given capacity, and says when it fills up. The read loop, with its receive, compaction and growth, is proved to end
  in the session, unread bytes, capacity and outcome of `Load` however the stream arrives, and `Load` to be `Drain`
  unless it fills up. The write side of the buffer conserves bytes, and the exact condition under which it does is
  given.
- **The session** (`Session`, `SessionInvariant`, `SessionFacts`, `SessionObject`, `Subscriptions`, `Lines`, `Commands`): handshake,
  client notification, commands queued, the subscription table as a finite map, the formatted lines and what a server
  reads from them.
- **Connecting and reconnecting** (`Link`, `LinkTheorems`, `LinkHistory`, `LinkFate`, `LinkObject`): the recursive cycle
  of close, reconnect, connect, flush and close, the events that start it, what each event does to the connection, and
  invariants and histories of all runs from the start of the worker.
- **The bytes on the wire** (`Output`, `OutputObject`, `ServerReader`, `Refusals`): the write buffer of each
  connection beside the state machine, over the same runs: what the socket took is a prefix of the commands queued, and
  a server that reads it gets the client's calls; and what a refused message leaves behind.
- **JSON** (`JsonNumber`, `Json`, `JsonGrammar`, `JsonAccepts`, `JsonSound`, `JsonTheorems`, `JsonMeaning`,
  `JsonPrinter`, `JsonReader`): the reader accepts exactly a relaxed form of sections 4 to 7 of RFC 8259 given as concrete
  syntax trees, and inverts the printer of the same file.
- **The random number generator** (`Random`): two multiply-with-carry halves.

Every imperative routine is a method on an array or an object and is tied to a function on values; the theorems
are about those functions. A run of the whole client is `LinkTheorems.Run` over the events of `Link.Step`, and
each event handler of the class `LinkObject.NatsData` is proved to do exactly one `Step`.

Outcomes the client does not control are parameters: what a connection attempt does (`Link.Oracle`), what a send
takes (`Link.Send`), how many bytes each receive gives (`take` of `ReadLoop.ReadFromNats`), whether an allocation
succeeds (`alloc`, per size while a stream is read) and what fresh memory holds (`junk`), whether `strtod` consumes a text (`strtod`). Timers are
one flag, "armed". Callbacks are entries of a log; a `connected` callback may register further clients.

Where the code differs from what is written about it, or from what one would expect, the code is modelled and the
difference is stated with its exact condition:

- The documentation (`README.md:34-36` of the repository) says that after a disconnect all listed servers are tried
  before waiting. The code goes on behind the lost server: `LinkTheorems.AllServersTriedIff`, and
  `LinkTheorems.LosingTheOnlyServer` for the single-server case.
- Growing the buffer while part of its window is consumed shifts the window: `Buffer.WindowKeptIff`,
  `Buffer.OffsetGrowthShifts`, `Buffer.OverrunIff`. The read side always grows at offset 0.
- Publishing with length 0 queues the data as a C string: `Lines.PublishCorrectIff`.
- A SUB line is cut when the subject is too long for its buffer; no limit is checked: `Lines.SubLineWholeIff`.
- The decimal fields of MSG have no range check (`src/ngx_nats_protocol.c:80-99`), so a field above ngx_int_t has no
  meaning in C. The model answers such a message with the fault `Overflow`; `WireOverflow.OverflowIff` says exactly
  which messages they are, and runs do not contain them (`Link.Defined`, `LinkTheorems.DefinedIff`). Where the
  arithmetic wraps, "MSG a 1 18446744073709551614" is taken for a message whose payload ends before it starts
  (`WireOverflow.WrappedExample`), and -2 is the only negative length for which that happens
  (`WireOverflow.NegativeLength`).
- Subjects, reply-to, user and password are put into lines unchecked: `Commands.PubReadsIff`, `Commands.SubReadsIff`,
  `Lines.ConnectCarries`.
- A call whose message is refused by a full write buffer leaves its first messages in the buffer, and a subscribe its
  table entry: `Refusals.AtomicIff`, `Refusals.HeaderAlone`, `Refusals.SubscribedIff`.
- A message for sid 0 finds a free slot: `Subscriptions.ZeroHitsFreeSlot`, `SessionInvariant.DeliveredTo`.
- A PONG before CONNECT was queued makes the connection ready without one: `SessionInvariant.ReadyWithoutConnect`.
- After a bad stream the connection is closed twice and clients are told twice: `LinkTheorems.GiveUpWaits`, `LinkHistory.StepTells`.
- The text "-0" is refused: `JsonNumber.MinusZero`; a primitive at the very end of a text is not self-delimiting:
  `JsonTheorems.FinalIff`.

`dafny verify dfyconfig.toml` checks the project.

## Model

| member | source | states |
|---|---|---|
| WireStability.VerdictStable | src/ngx_nats_protocol.c:145-217 | Verdict stability: a consumed count or an error, with all message fields, stays the same when any bytes follow; AGAIN is the only answer more input can change |
| WireStability.MsgStable | src/ngx_nats_protocol.c:417-521 | The same for the MSG parser by itself |
| WireStability.ErrStable | src/ngx_nats_protocol.c:310-369 | The same for -ERR with and without text |
| WireStability.InfoStable | src/ngx_nats_protocol.c:372-413 | The same for INFO |
| WireStability.BareStable | src/ngx_nats_protocol.c:220-307 | The same for +OK, PING and PONG |
| WireStability.FrameBounds | src/ngx_nats_protocol.c:145-521 | Of a recognised message whose decimal fields fit ngx_int_t: at least 5 and at most all bytes are consumed, and subject, reply-to and body lie in this order inside them, each with a byte behind it |
| WireStability.ShorterIsAgain | src/ngx_nats_protocol.c:145-521 | No proper prefix of a message is a message or an error |
| WireStability.FrameIsLocal | src/ngx_nats_protocol.c:145-521 | The verdict on a message depends on its own bytes only |
| WireStability.MsgHeadInLine | src/ngx_nats_protocol.c:449-497 | The fields of a MSG header line lie inside the line, in order, the reply-to optional |
| WireGrammar.TokenAccepted | src/ngx_nats_protocol.c:101-142 | Behind blanks, a bare run of bytes up to a blank or the end, or a text in quotes with backslash pairs, is the next token |
| WireGrammar.TokenSound | src/ngx_nats_protocol.c:101-142 | Whatever is found as a token is one of these two |
| WireGrammar.LineAccepted | src/ngx_nats_protocol.c:449-497 | A line of MSG, subject, sid, optional reply-to and length, each behind blanks, is accepted with exactly these fields |
| WireGrammar.LineSound | src/ngx_nats_protocol.c:449-497 | Every accepted header line is such a line with these fields |
| WireGrammar.ShapeAccepted | src/ngx_nats_protocol.c:145-521 | Bytes that start with a text of the grammar are recognised with its length and fields |
| WireGrammar.ShapeSound | src/ngx_nats_protocol.c:145-521 | Whatever is recognised starts with a text of the grammar: one of six words in any case, tokens behind blanks or a text, as many payload bytes as announced, CR LF |
| WireGrammar.FrameIff | src/ngx_nats_protocol.c:145-521 | A message of n bytes with these fields is recognised if and only if the bytes start with such a text |
| WireGrammar.BadIff | src/ngx_nats_protocol.c:145-521 | A text is refused if and only if its header is settled and not one of the six, its line is complete but not of the grammar, or its payload or text is there and not closed by CR LF; everything else not recognised waits |
| WireContent.PatchIsFramed | src/ngx_nats_protocol.c:310-521 | The writes on success change no other byte than those behind subject, reply-to and body, which become NUL; everything behind the message stays, and the fields read as before |
| WireContent.AtoiInvertsDecimal | src/ngx_nats_protocol.c:80-99 | The decimal reader gives back every number of ngx_int_t from its shortest numeral |
| WireContent.NextIsPlain | src/ngx_nats_protocol.c:101-142 | A token without blank, CR or opening quote behind one blank is the next token, with its exact span |
| WireContent.MsgLineParses | src/ngx_nats_protocol.c:449-497 | The printed MSG header line, with or without reply-to, gives back subject, sid, reply-to and length with their spans |
| WireContent.MsgRoundTrip | src/ngx_nats_protocol.c:417-521 | A printed MSG frame with any payload bytes, followed by anything, is recognised with its exact length and gives back all fields |
| WireContent.ErrRoundTrip | src/ngx_nats_protocol.c:310-369 | A printed -ERR with text, followed by anything, gives back its text |
| WireContent.InfoRoundTrip | src/ngx_nats_protocol.c:372-413 | A printed INFO, followed by anything, gives back its text |
| WireContent.BareRoundTrip | src/ngx_nats_protocol.c:220-369 | +OK, PING, PONG and -ERR without text, followed by anything, are recognised with their exact length |
| WireContent.RoundTrip | src/ngx_nats_protocol.c:145-521 | All of these together, and every proper prefix of a printed frame gives AGAIN |
| WireOverflow.AtoiFromIs | src/ngx_nats_protocol.c:80-99 | From any digit on, the decimal loop goes wrong exactly when the number made of the digits ahead is above ngx_int_t, fails exactly when another byte ends them, and otherwise gives that number |
| WireOverflow.AtoiIs | src/ngx_nats_protocol.c:80-99 | The same for a whole field |
| WireOverflow.OverflowIff | src/ngx_nats_protocol.c:417-497 | A message has no meaning in C exactly when it is a MSG with a complete header line whose sid is too big, or whose sid is a number and whose length is too big |
| WireOverflow.UnreadableIsLong | src/ngx_nats_protocol.c:80-99 | Such a message has a decimal field of more than 18 digits |
| WireOverflow.LongLength | src/ngx_nats_protocol.c:494-497 | Every header line with a length above ngx_int_t, whatever follows, is such a message |
| WireOverflow.WrapIs | src/ngx_nats_protocol.c:80-99 | With wrap-around on 64 bits the loop gives the number modulo 2^64 |
| WireOverflow.NegativeLength | src/ngx_nats_protocol.c:499-507 | A negative length passes the test for the closing CR LF if and only if it is -2 |
| WireOverflow.WrappedLength | src/ngx_nats_protocol.c:494-518 | With wrap-around, any subject and sid with the length 2^64 - 2 are taken for a message whose payload ends two bytes before it starts |
| WireOverflow.WrappedExample | src/ngx_nats_protocol.c:494-518 | The same for "MSG a 1 18446744073709551614" |
| WireInPlace.AtoiInPlace | src/ngx_nats_protocol.c:80-99 | The digit loop on the array computes the specified number or fault |
| WireInPlace.QuoteInPlace | src/ngx_nats_protocol.c:101-142 | The quoted scan, which has no bound check of its own, stays in the array because of the CR at the end of the line, and finds the closing quote the specification finds |
| WireInPlace.TokenInPlace | src/ngx_nats_protocol.c:101-142 | The token scan finds the specified token with all reads in bounds |
| WireInPlace.MsgHeadInPlace | src/ngx_nats_protocol.c:449-467 | Subject and sid, then the tail, as specified |
| WireInPlace.MsgTailInPlace | src/ngx_nats_protocol.c:469-497 | Reply-to or not, length, and nothing behind it, as specified |
| WireInPlace.FindLineEnd | src/ngx_nats_protocol.c:438-441 | The scan for the CR of the header line, one byte short of the end, decides the same as a scan of all bytes |
| WireInPlace.MsgInPlace | src/ngx_nats_protocol.c:417-521 | The MSG parser on the array: the specified verdict; on AGAIN and error no byte of the array changes, on success only the NULs |
| WireInPlace.MsgLineInPlace | src/ngx_nats_protocol.c:446-521 | The same from the end of the header line on |
| WireInPlace.PayloadInPlace | src/ngx_nats_protocol.c:499-521 | Payload length, closing CR LF, and the writes behind subject, reply-to and payload |
| WireInPlace.TextInPlace | src/ngx_nats_protocol.c:350-369 | The text of -ERR and INFO up to its CR LF, and its one write |
| WireInPlace.ErrInPlace | src/ngx_nats_protocol.c:310-369 | The -ERR parser on the array: specified verdict and writes |
| WireInPlace.InfoInPlace | src/ngx_nats_protocol.c:372-413 | The INFO parser on the array: specified verdict and writes |
| WireInPlace.BareInPlace | src/ngx_nats_protocol.c:220-307 | +OK, PING and PONG on the array: specified verdict, no write |
| WireInPlace.FoldMatches | src/ngx_nats_protocol.c:180-212 | The case-insensitive comparison of the header |
| WireInPlace.ParseInPlace | src/ngx_nats_protocol.c:145-217 | The whole parser at any offset of the array: the specified verdict on exactly the bytes handed over; outside them, on AGAIN and on errors nothing changes, on success exactly the patched positions become NUL |
| Buffer.EnsureKeepsWindow | src/ngx_nats_comm.c:114-171 | Making room keeps the live bytes and gives the room, unless it grows behind a consumed part; it is refused only at the size limit or when the allocation fails |
| Buffer.EnsureValid | src/ngx_nats_comm.c:114-171 | Offsets stay within the capacity, which is kept or at least doubled |
| Buffer.OffsetGrowthShifts | src/ngx_nats_comm.c:148-170 | A growth with pos > 0 loses the first pos live bytes and gains as many unspecified ones at the end |
| Buffer.OffsetGrowthExample | src/ngx_nats_comm.c:148-170 | From an empty buffer, three bytes queued and one sent lead to a window [2, 3] that queueing 4095 more turns into [3, 0] |
| Buffer.WindowKeptIff | src/ngx_nats_comm.c:114-171 | Whatever fresh memory holds, the window is kept if and only if the request does not grow the buffer behind a consumed part |
| Buffer.CeilingFrom | src/ngx_nats_comm.c:736-758 | Doubling on the way does not change the capacity at which a reader stops growing |
| Buffer.DoubledIsLeast | src/ngx_nats_comm.c:150-156 | The new capacity is the first of the doublings that is enough |
| Buffer.Sizes | src/ngx_nats_comm.c:435-440 | The limits in numbers; a message of length 0 is the data up to its first NUL |
| Buffer.OverrunIff | src/ngx_nats_comm.c:429-451 | Queueing writes past the allocation exactly when a new allocation fits live bytes and message but not the message behind the unchanged end |
| Buffer.QueueConserves | src/ngx_nats_comm.c:429-451 | Queueing keeps "bytes sent followed by live bytes are the bytes queued", also when refused |
| Buffer.SendConserves | src/ngx_nats_comm.c:367-426 | So does a send that takes all, some or none of the window |
| Buffer.WriteConservation | src/ngx_nats_comm.c:367-451 | Over any run of queueing and sends without growth behind a partly sent window, bytes sent followed by the live window equal all bytes queued, in order |
| BufferObject.NatsBuf.constructor | src/ngx_nats_comm.c:55-75 | An empty buffer of the given size |
| BufferObject.NatsBuf.Reset | src/ngx_nats_comm.c:89-94 | Both offsets back to 0 |
| BufferObject.NatsBuf.Compact | src/ngx_nats_comm.c:97-111 | The live bytes are moved to offset 0 in place, overlapping copy included, and stay the same |
| BufferObject.NatsBuf.Ensure | src/ngx_nats_comm.c:114-171 | The in-place routine refines the value-level one, for whatever fresh memory holds |
| BufferObject.NatsBuf.Realloc | src/ngx_nats_comm.c:148-170 | The doubling loop and the copy into the new allocation, pos and end unchanged |
| BufferObject.NatsBuf.AddMessage | src/ngx_nats_comm.c:429-451 | Queueing refines the value-level one, with size 0 read as a C string |
| BufferObject.NatsBuf.StringLength | src/ngx_nats_comm.c:435-440 | The strlen of the fallback |
| BufferObject.NatsBuf.Took | src/ngx_nats_comm.c:386-402 | The bookkeeping after the socket took k bytes |
| Stream.DrainSplit | src/ngx_nats_comm.c:896-966 | Reading s and then t is reading s followed by t; after a fault or a refused frame more bytes change nothing |
| Stream.WaitingRest | src/ngx_nats_comm.c:703-772 | A waiting reader holds exactly the unconsumed suffix, and that is an incomplete message |
| Stream.StopTells | src/ngx_nats_comm.c:711-792 | The reader waits, faults or refuses exactly as the parser answers on the bytes left |
| Stream.ChunkIndependence | src/ngx_nats_comm.c:703-966 | For every stream and every division of it into reads the session, the reason to stand still and the unread bytes are those of the whole stream parsed from the front |
| Stream.SentIsHandled | src/ngx_nats_comm.c:703-913 | Printed messages reach the session content by content, in order, up to the first it refuses |
| Stream.EndToEnd | src/ngx_nats_comm.c:703-966 | The same through every division into reads |
| ReadLimits.FrameFits | src/ngx_nats_comm.c:726-756 | For a stream that starts with a message, never waiting at the limit is the same as the message being shorter than the limit |
| ReadLimits.FitsSplit | src/ngx_nats_comm.c:728-756 | A stream that fits goes on fitting from wherever the reader waits, with the limit then in force |
| ReadLimits.ShortMessagesFit | src/ngx_nats_comm.c:728-756 | Messages each shorter than the limit in force when they come make a stream that fits |
| ReadLimits.PeakStable | src/ngx_nats_comm.c:722-756 | How far a message can make a reader wait is settled once the parser answers, and is one byte less than a whole message |
| ReadLimits.LoadIsDrain | src/ngx_nats_comm.c:703-966 | Unless the buffer fills up, reading through it gives what parsing the stream from the front gives |
| ReadLimits.FitsLoads | src/ngx_nats_comm.c:736-758 | With memory to be had, a stream whose messages stay below the limits in force never fills the buffer up, whatever its capacity |
| ReadLimits.LoadSplit | src/ngx_nats_comm.c:896-966 | Reading s and then t through the buffer is reading s followed by t: session, rest, capacity and whether it fills up |
| ReadLimits.LoadCap | src/ngx_nats_comm.c:722-772 | The capacity stays a doubling of 4096 up to 2^28, and a waiting reader always has room for a byte |
| ReadLimits.LimitIff | src/ngx_nats_comm.c:742-744 | A capacity has reached the limit if and only if it is 256 MB or more, or the server's maximum payload is positive and at most it |
| ReadLimits.CeilingIs | src/ngx_nats_comm.c:742-758 | Growth stops at the first doubling that has reached the limit or cannot be doubled for lack of memory |
| ReadLimits.OverfullIff | src/ngx_nats_comm.c:730-768 | A message fills the buffer up if and only if it is still incomplete when it has used all but one byte of a capacity at which growth stops |
| ReadLimits.BelowIsHandled | src/ngx_nats_comm.c:736-758 | A server that keeps its messages shorter than its own positive maximum payload and than 256 MB gets all of them handled, whatever capacity the buffer has |
| ReadLoop.DoublesExactly | src/ngx_nats_comm.c:757-758 | A full read buffer below the limit doubles exactly, keeps its bytes and then offers room |
| ReadLoop.MakeRoom | src/ngx_nats_comm.c:724-772 | Compaction and growth keep the live bytes; it gives up if and only if the buffer is full but for one byte and its capacity is 256 MB, or has reached the positive maximum payload of the server, or cannot be doubled for lack of memory; otherwise at least one byte can be received |
| ReadLoop.ParseWindow | src/ngx_nats_comm.c:715-718 | Parsing in place seen from the window: patched on success, otherwise untouched |
| ReadLoop.TakeFrame | src/ngx_nats_comm.c:715-720 | The content handed on after the in-place writes is the content before them, and the bytes behind the frame are untouched |
| ReadLoop.LoadInWindow | src/ngx_nats_comm.c:715-792 | A message that the window holds whole is handled without growth |
| ReadLoop.ProcessMessage | src/ngx_nats_comm.c:703-893 | One round of the loop is one step of the reference reading through the buffer: a frame consumed, waiting, a fault or refusal, or no room |
| ReadLoop.ProcessBuffer | src/ngx_nats_comm.c:896-913 | The loop handles exactly the frames the reference reading finds in the window, leaves its rest and its capacity |
| ReadLoop.Receive | src/ngx_nats_comm.c:927-957 | One receive: never offered fewer than one byte, the new bytes go behind the live ones |
| ReadLoop.ReadFromNats | src/ngx_nats_comm.c:915-966 | However many bytes each receive takes, the read loop ends in the session, window, capacity and outcome of the whole stream read at once; it gives up for size or memory if and only if the stream fills the buffer up |
| Subscriptions.Find | src/ngx_nats_comm.c:574-589 | The first slot with a sid |
| Subscriptions.LookupRefines | src/ngx_nats_comm.c:574-589 | Lookup of any sid above 0 agrees with the map |
| Subscriptions.AddRefines | src/ngx_nats_comm.c:591-612 | First-fit reuse of a free slot or appending adds one entry to the map and keeps sids distinct |
| Subscriptions.RemoveRefines | src/ngx_nats_comm.c:614-635 | Freeing removes one entry from the map; sid 0 and unknown sids change nothing |
| Subscriptions.AccountRefines | src/ngx_nats_comm.c:637-700 | A delivery counts, and removes the entry when its maximum is reached |
| Subscriptions.ZeroHitsFreeSlot | src/ngx_nats_comm.c:574-589 | Lookup of sid 0 succeeds exactly when a slot is free, though 0 is never in the map |
| SessionInvariant.TellFromTells | src/ngx_nats_comm.c:454-486 | The notification loop tells every entry it covers and everyone registered meanwhile, each exactly once |
| SessionInvariant.TellTells | src/ngx_nats_comm.c:454-486 | One `connected` callback tells its entry and all clients it registers, to any depth, each once |
| SessionInvariant.AddClientTells | src/ngx_nats_comm.c:1278-1309 | Registering on a ready connection tells the client at once, and all it registers in turn, each once |
| SessionInvariant.AddClientKeeps | src/ngx_nats_comm.c:1278-1309 | Registering keeps the session invariant in every state |
| SessionInvariant.PongKeeps | src/ngx_nats_comm.c:838-849 | A PONG leaves the connection ready with every entry told exactly once |
| SessionInvariant.InitKeeps | src/ngx_nats_comm.c:1074-1094 | CONNECT is queued at most once per connection; state bits are only gained |
| SessionInvariant.ExchangedKeeps | src/ngx_nats_comm.c:333-364 | The first bytes set one bit and keep the invariant |
| SessionInvariant.ClosedKeeps | src/ngx_nats_comm.c:248-280 | A close keeps the session invariant, leaves the table empty and restarts the sids |
| SessionInvariant.ReadyWithoutConnect | src/ngx_nats_comm.c:838-849 | After the first PONG, CONNECT has been queued if and only if the state said so before; otherwise it never will be on this connection |
| SessionInvariant.AddKeepsTable | src/ngx_nats_comm.c:1404-1428 | A new sid is above all issued since the last close, so it is new to the map and was never delivered to |
| SessionInvariant.DeliverKeepsTable | src/ngx_nats_comm.c:637-700 | A subscription with a positive maximum is removed at exactly that many deliveries, never sooner or later |
| SessionInvariant.StrayKeepsTable | src/ngx_nats_comm.c:637-700 | A message for sid 0 that hits a free slot leaves live subscriptions alone |
| SessionInvariant.DeliveredTo | src/ngx_nats_comm.c:637-700 | A message goes to the handler of the live subscription with its sid, and changes nothing if there is none, sid 0 on a free slot excepted |
| SessionFacts.ErrorIff | src/ngx_nats_comm.c:796-829 | An -ERR changes nothing and closes the connection if and only if CONNECT was sent and not answered |
| SessionFacts.InfoHandled | src/ngx_nats_comm.c:851-872 | An INFO frame that a server prints of itself is what the connection then knows; +OK does nothing |
| SessionFacts.PongIff | src/ngx_nats_comm.c:838-849 | The first PONG makes the state 15, every later one changes nothing |
| SessionFacts.TellFromLogs | src/ngx_nats_comm.c:454-486 | Whoever is told is told by exactly one callback, logged in this order |
| SessionFacts.TellsInOrder | src/ngx_nats_comm.c:476-483 | The entries the loop covers are told from the first to the last, whoever registers meanwhile |
| SessionFacts.Registered | src/ngx_nats_comm.c:1278-1309 | A client goes behind those registered before, and is told at once if and only if the connection is ready |
| SessionFacts.ClosedLogs | src/ngx_nats_comm.c:248-267 | A close of a ready connection calls `disconnected` of each entry once, in order, and no other close calls any |
| SessionFacts.PublishReplyIff | src/ngx_nats_comm.c:1322-1350 | A publish answers "not connected" exactly without a ready connection, "declined" exactly above 512 bytes of subject and reply-to, and changes nothing then |
| SessionFacts.SubscribeReplyIff | src/ngx_nats_comm.c:1377-1406 | A subscribe answers a sid exactly on a ready connection, one more than the last |
| SessionFacts.UnsubscribeReplyIff | src/ngx_nats_comm.c:1440-1469 | An unsubscribe is declined exactly for sid 0 and for a sid that is not live, and refused without a ready connection |
| SessionFacts.FirstSid | src/ngx_nats_comm.c:275-276 | The first subscription on a connection gets sid 1, whatever was subscribed before a close |
| SessionFacts.AddReuses | src/ngx_nats_comm.c:591-612 | A subscription takes the first free slot, and a new one only when none is free |
| SessionFacts.RemoveFrees | src/ngx_nats_comm.c:614-635 | Removing frees slots of this sid and leaves every other one as it is |
| SessionInvariant.HandleKeeps | src/ngx_nats_comm.c:791-892 | Every frame keeps the session invariant and only gains state bits |
| SessionInvariant.PublishKeeps | src/ngx_nats_comm.c:1312-1374 | Publishing keeps the invariant; nothing is queued unless ready |
| SessionInvariant.SubscribeKeeps | src/ngx_nats_comm.c:1377-1437 | Subscribing succeeds exactly on a ready connection and adds exactly one map entry under a fresh sid |
| SessionInvariant.UnsubscribeKeeps | src/ngx_nats_comm.c:1440-1481 | Unsubscribing succeeds exactly on a ready connection and a live sid, and removes exactly that entry |
| SessionObject.Conn.constructor | src/ngx_nats.c:407-476 | The client data before the first connection |
| SessionObject.Conn.CheckConnected | src/ngx_nats_comm.c:333-364 | Refines the first-bytes step |
| SessionObject.Conn.Init | src/ngx_nats_comm.c:1074-1094 | Refines the handshake step |
| SessionObject.Conn.CallConnected | src/ngx_nats_comm.c:476-483 | Refines one callback with its registrations |
| SessionObject.Conn.Register | src/ngx_nats_comm.c:1278-1309 | Refines registering |
| SessionObject.Conn.ConnectionReady | src/ngx_nats_comm.c:454-486 | The loop over the entries counted at its start refines the notification |
| SessionObject.Conn.GetSubscription | src/ngx_nats_comm.c:574-589 | The slot loop finds the first slot with the sid |
| SessionObject.Conn.AddSubscription | src/ngx_nats_comm.c:591-612 | Refines first-fit insertion |
| SessionObject.Conn.RemoveSubscription | src/ngx_nats_comm.c:614-635 | Refines removal, with its return value |
| SessionObject.Conn.ProcessMsg | src/ngx_nats_comm.c:637-700 | Refines delivery |
| SessionObject.Conn.ProcessInfo | src/ngx_nats_comm.c:489-564 | The fields of INFO taken over one by one; a known field of the wrong type refuses the message, fields before it stay set |
| SessionObject.Conn.HandleFrame | src/ngx_nats_comm.c:791-892 | Refines the handling of one frame |
| SessionObject.Conn.PublishM | src/ngx_nats_comm.c:1312-1374 | Refines publishing |
| SessionObject.Conn.SubscribeM | src/ngx_nats_comm.c:1377-1437 | Refines subscribing |
| SessionObject.Conn.UnsubscribeM | src/ngx_nats_comm.c:1440-1481 | Refines unsubscribing |
| SessionObject.Conn.CloseSession | src/ngx_nats_comm.c:250-280 | Refines the session part of a close |
| Lines.PubHeaderWhole | src/ngx_nats_comm.c:1312-1374 | The subject limit leaves room for the whole PUB header with any 64-bit length |
| Lines.PublishCorrectIff | src/ngx_nats_comm.c:1312-1374 | A publish queues a correct frame if and only if its length is positive or its data starts with a NUL |
| Lines.SubLineWholeIff | src/ngx_nats_comm.c:1377-1437 | A SUB line comes out whole if and only if subject and sid leave room for the rest |
| Lines.UnsubLineWhole | src/ngx_nats_comm.c:1377-1481 | UNSUB lines are never cut |
| Lines.ConnectWhole | src/ngx_nats.c:385-404 | The length check on user and password keeps the CONNECT line whole |
| Lines.ConnectCarries | src/ngx_nats_comm.c:1074-1094 | What a server reads as the CONNECT line, up to the first line end, holds exactly these fields if and only if neither user nor password holds a CR or LF; both without quote, backslash and NUL |
| Lines.ConnectLiteral | src/ngx_nats_comm.c:1081-1084 | The text of CONNECT and PING, byte by byte, with user and password in their places |
| Commands.WordsOfJoined | src/ngx_nats_comm.c:1312-1481 | Splitting a control line at runs of blanks and tabs gives back the fields it was formatted from if and only if none of them is empty or holds a blank or tab |
| Commands.PubReadsIff | src/ngx_nats_comm.c:1341-1356 | A server reads subject, reply-to and length back from a PUB header if and only if subject and reply-to are not empty and hold no blank, tab, CR or LF |
| Commands.SubReadsIff | src/ngx_nats_comm.c:1419-1420 | The same for subject and sid of a SUB line |
| Commands.UnsubReads | src/ngx_nats_comm.c:1426-1427 | An UNSUB line always gives back its sid and maximum |
| Commands.PublishSends | src/ngx_nats_comm.c:1312-1374 | A publish on a ready connection queues one header with these fields and behind it exactly that many bytes of the data |
| Commands.SubscribeSends | src/ngx_nats_comm.c:1377-1437 | Subscribing queues SUB under the sid it returns and, with a positive maximum, UNSUB with that sid and maximum |
| Commands.UnsubscribeSends | src/ngx_nats_comm.c:1440-1481 | Unsubscribing queues UNSUB with its sid when it succeeds and nothing otherwise |
| Commands.InfoAcceptedIff | src/ngx_nats_comm.c:509-563 | INFO is accepted if and only if every field the client knows has its type, whatever other fields there are |
| Commands.InfoCarries | src/ngx_nats_comm.c:489-564 | What a server prints of itself in INFO is exactly what the client then knows of it, whatever it knew before |
| Commands.PingsAnswered | src/ngx_nats_comm.c:833-837 | Over any sequence of server messages, as many PONGs are queued as PINGs came, and nothing else |
| LinkTheorems.RoundOrder | src/ngx_nats_comm.c:1097-1243 | A round from curr_index attempts the following servers in order, each once, up to the first that does not die without a byte; it ends connected there or with the timer armed and curr_index -1 |
| LinkTheorems.AllDead | src/ngx_nats_comm.c:1097-1243 | With only dead servers left, all of them are attempted in order and the timer is armed |
| LinkTheorems.AllServersTriedIff | src/ngx_nats_comm.c:1097-1145 | With only dead servers, all listed servers are tried before waiting if and only if the round starts from -1 |
| LinkTheorems.LosingTheOnlyServer | src/ngx_nats_comm.c:1097-1145 | With one server, losing it leads to waiting without an attempt |
| LinkTheorems.RoundKeeps | src/ngx_nats_comm.c:1097-1243 | A round, through all its recursion, ends with a connection or an armed timer and a sound session |
| LinkTheorems.CloseKeeps | src/ngx_nats_comm.c:216-307 | So does a close, for either reason, also with the timer already armed |
| LinkTheorems.FlushKeeps | src/ngx_nats_comm.c:367-426 | So does a flush, whatever the send does |
| LinkTheorems.ReadKeeps | src/ngx_nats_comm.c:915-1004 | So does a read event, with any bytes and any end, the double close included |
| LinkTheorems.StepKeeps | src/ngx_nats_comm.c:216-1481 | So does every event |
| LinkTheorems.NeverStuck | src/ngx_nats_comm.c:216-1266 | After the start and any run of events exactly one holds: a connection, open or pending, or an armed reconnect timer; and the read buffer holds an incomplete message, is within its bounds and has room |
| LinkTheorems.RunPromises | src/ngx_nats_comm.c:333-1481 | After any run: the state is one of 0, 1, 2, 3, 15; CONNECT was queued at most once; before readiness only CONNECT and PONG, no subscription and no sid; on a ready connection each entry was told exactly once; live sids lie in 1..next_id; nobody got more than its maximum, and who has reached it is gone |
| LinkTheorems.StepGrows | src/ngx_nats_comm.c:216-1481 | While one connection lives, bits are only gained, sids never reissued, and nothing queued, delivered or registered is undone |
| LinkTheorems.GiveUpWaits | src/ngx_nats_comm.c:952-957 | The double close after a bad stream ends with the timer armed and no attempt in between; ready clients are told disconnected twice |
| LinkTheorems.CloseAttempts | src/ngx_nats_comm.c:216-307 | A close that ends with a connection has attempted a server |
| LinkTheorems.LoadInv | src/ngx_nats_comm.c:703-966 | Whatever arrives, reading it keeps the session invariant and only gains state bits |
| LinkTheorems.DefinedIff | src/ngx_nats_comm.c:915-966 | A read has a meaning in C exactly when the reading does not come to a MSG with a decimal field above ngx_int_t |
| LinkHistory.StepExtends | src/ngx_nats_comm.c:1097-1243 | Every event attempts the servers behind the current one, in order and each once, and ends at the last of them or waiting; while the timer is armed only its firing attempts any |
| LinkHistory.RunOrder | src/ngx_nats_comm.c:1097-1266 | Over any run the servers are attempted in rounds 0, 1, 2, ..., however many events a round takes; an open connection is to the last one attempted; and there are as many rounds as one and the firings of the timer |
| LinkHistory.RoundTells | src/ngx_nats_comm.c:1097-1243 | No connection made and lost within a round is reported to clients |
| LinkHistory.CloseTells | src/ngx_nats_comm.c:216-307 | A close, with all attempts it leads to, tells each entry once if the connection was ready and nobody otherwise |
| LinkHistory.StepTells | src/ngx_nats_comm.c:216-1481 | An event tells nobody, each entry once or each entry twice of a loss, and twice exactly when it is a read that leaves a ready session and is given up |
| LinkFate.CloseFate | src/ngx_nats_comm.c:284-305 | A close tries the servers behind the lost one at once if the peer has gone or no byte was exchanged, and otherwise arms the timer and tries nobody |
| LinkFate.CloseAttemptsIff | src/ngx_nats_comm.c:284-305 | A close attempts a server if and only if there is one behind the current one and the peer has gone or no byte was exchanged |
| LinkFate.StepFate | src/ngx_nats_comm.c:367-1018 | Every event on an open connection keeps it, or loses it to the next server at once, or makes the client wait, as a table of events says: end of stream and failed sends go on, timeouts and failed registrations go on before the first byte and wait after it, given up streams wait |
| LinkFate.StepSession | src/ngx_nats_comm.c:333-1481 | A connection that survives an event is in the session the event leads to, up to the mark of the first bytes, and keeps the bytes not parsed yet |
| LinkFate.WritableConnects | src/ngx_nats_comm.c:969-985 | A connection that becomes writable and survives has queued CONNECT, and only if it had not before |
| LinkFate.BytesMarked | src/ngx_nats_comm.c:333-364 | On a connection that survives, bytes read or taken by a send set the mark of the first bytes |
| Output.PutAllConserves | src/ngx_nats_comm.c:429-451 | Messages taken one after the other end up behind what waits, in order, and nothing is sent meanwhile |
| Output.JunkDoesNotMatter | src/ngx_nats_comm.c:148-170 | What fresh memory holds makes no difference to a message that is taken |
| Output.RenderedSplit | src/ngx_nats_comm.c:1074-1481 | The bytes of commands queued one after the other are their bytes one after the other |
| Output.StepLeaves | src/ngx_nats_comm.c:216-1481 | After any event a surviving connection has queued more, and bytes left to send unless the send took all; any other connection is just made: nothing left of an earlier one, and nothing or the handshake queued |
| Output.StepFeeds | src/ngx_nats_comm.c:367-451 | Every event keeps the buffer of the connection equal to what was queued on it and not yet sent |
| Output.OnTheWire | src/ngx_nats_comm.c:367-1481 | After the start and any run in which everything queued is taken, the socket has taken a prefix of the rendered commands, the buffer holds exactly the rest, and nothing is left exactly when the state machine says so |
| Output.RunAllIsRun | src/ngx_nats_comm.c:367-1481 | The runs watched for their bytes are the runs of the state machine that the other theorems are about |
| Output.FewAreTaken | src/ngx_nats_comm.c:114-171 | As long as a connection has queued at most 4096 bytes in all, everything queued is taken |
| Output.HandshakeIsTaken | src/ngx_nats_comm.c:1074-1094 | The handshake is taken by every new connection |
| Output.ModestRunsCarry | src/ngx_nats_comm.c:114-171 | Over whole runs from the start: when each connection queues at most 4096 bytes in all and each partial send takes at least one byte and not all, everything is taken and carried |
| ServerReader.CommandBytes | src/ngx_nats_comm.c:1074-1481 | The bytes of each command: the handshake, six bytes of PONG, header before payload before CR LF, the SUB and UNSUB lines |
| ServerReader.PublishAdds | src/ngx_nats_comm.c:1341-1369 | A publish adds its header line, that many bytes of the data, and CR LF to the bytes of the connection |
| ServerReader.SubscribeAdds | src/ngx_nats_comm.c:1419-1432 | A subscribe adds its SUB line and, with a maximum, its UNSUB line |
| ServerReader.UnsubscribeAdds | src/ngx_nats_comm.c:1470-1476 | An unsubscribe adds its UNSUB line |
| ServerReader.ProtocolAdds | src/ngx_nats_comm.c:833-837 | The handshake adds CONNECT and PING once, a PING received adds PONG |
| ServerReader.QueueRead | src/ngx_nats_comm.c:1074-1481 | A server that reads control lines and announced payloads gets from the bytes of a queue the orders its commands mean, in order |
| ServerReader.OrdersStable | src/ngx_nats_comm.c:367-405 | More bytes only add orders to those already understood |
| ServerReader.ServerUnderstands | src/ngx_nats_comm.c:367-1481 | At any time a server has understood the first of the orders of the connection, and all of them once everything is sent |
| ServerReader.PublishMeans | src/ngx_nats_comm.c:1312-1374 | A publish with words for subject and reply-to means just that publication |
| ServerReader.SubscribeMeans | src/ngx_nats_comm.c:1377-1437 | A subscribe means the subscription under the sid it returns, and its maximum |
| ServerReader.UnsubscribeMeans | src/ngx_nats_comm.c:1440-1481 | An unsubscribe means the end of that subscription |
| OutputObject.Writer.constructor | src/ngx_nats_comm.c:55-75 | An empty write buffer |
| OutputObject.Writer.Enqueue | src/ngx_nats_comm.c:429-451 | Copying one message in place, whatever fresh memory holds, is queueing it |
| OutputObject.Writer.EnqueueAll | src/ngx_nats_comm.c:1312-1481 | Copying the messages of commands one after the other is queueing them all |
| OutputObject.Writer.SendOnce | src/ngx_nats_comm.c:367-405 | One send takes its bytes off the front of the buffer |
| OutputObject.Writer.Forget | src/ngx_nats_comm.c:280-282 | A lost connection leaves an empty buffer of the same capacity |
| OutputObject.Writer.Follow | src/ngx_nats_comm.c:367-451 | What an event does to the buffer in place is what `Output.After` says |
| Refusals.TakenStays | src/ngx_nats_comm.c:1356-1369 | A call that returns at the first refused message leaves the messages before it in the buffer, whole and in order |
| Refusals.AtomicIff | src/ngx_nats_comm.c:1356-1369 | At the size limit a call is all or nothing if and only if all of it fits or not even its first message does |
| Refusals.BelowLimitTaken | src/ngx_nats_comm.c:141-146 | A buffer with nothing sent off its front refuses nothing up to 256 MB |
| Refusals.HeaderAlone | src/ngx_nats_comm.c:1356-1364 | A publish of which only the header is left in the buffer |
| Refusals.SubscribedIff | src/ngx_nats_comm.c:1404-1432 | A refused subscribe leaves its table entry live; success is reported if and only if every command was taken |
| LinkObject.NatsData.constructor | src/ngx_nats_comm.c:1248-1266 | Worker start is the first round from the initial state |
| LinkObject.NatsData.ArmReconnectTimer | src/ngx_nats_comm.c:1041-1057 | Arms an unarmed timer and ends the round |
| LinkObject.NatsData.NextIndex | src/ngx_nats_comm.c:1109-1145 | The next server of the round, or the end of it |
| LinkObject.NatsData.ConnectLoop | src/ngx_nats_comm.c:1097-1223 | One attempt is one step of the round |
| LinkObject.NatsData.TryServer | src/ngx_nats_comm.c:1186-1223 | The attempt fails, is pending, or succeeds at once and flushes the handshake |
| LinkObject.NatsData.Connect | src/ngx_nats_comm.c:1225-1243 | The loop of attempts is the round; it terminates for every outcome |
| LinkObject.NatsData.Reconnect | src/ngx_nats_comm.c:1021-1038 | Refines a reconnect |
| LinkObject.NatsData.CloseConnection | src/ngx_nats_comm.c:216-307 | Refines a close |
| LinkObject.NatsData.FlushBuffer | src/ngx_nats_comm.c:367-426 | Refines a flush |
| LinkObject.NatsData.OnTimer | src/ngx_nats_comm.c:1032-1038 | Is one Step |
| LinkObject.NatsData.OnWritable | src/ngx_nats_comm.c:969-985 | Is one Step |
| LinkObject.NatsData.OnReadable | src/ngx_nats_comm.c:915-1004 | Receiving in any portions, parsing in place, handling, growing, and giving up, closing or flushing is the one Step that the bytes that arrived determine |
| LinkObject.NatsData.OnReadFailure | src/ngx_nats_comm.c:988-1004 | Is one Step |
| LinkObject.NatsData.CallRegister | src/ngx_nats_comm.c:1278-1309 | Is one Step |
| LinkObject.NatsData.CallPublish | src/ngx_nats_comm.c:1312-1374 | Is one Step, with its return value |
| LinkObject.NatsData.CallSubscribe | src/ngx_nats_comm.c:1377-1437 | Is one Step, with its return value |
| LinkObject.NatsData.CallUnsubscribe | src/ngx_nats_comm.c:1440-1481 | Is one Step, with its return value |
| JsonNumber.UintExact | src/ngx_nats_json.c:490-558 | The decimal loop never wraps uint64_t and yields the denoted value unless that is above the range it stops at |
| JsonNumber.IntExact | src/ngx_nats_json.c:490-558 | A text is accepted if and only if its signed value lies in -2^63..2^63-1 and it is not minus zero, and then gives that value |
| JsonNumber.MinusZero | src/ngx_nats_json.c:543-549 | "-0" is refused, "-05" is -5 |
| JsonNumber.HexExact | src/ngx_nats_json.c:438-487 | Up to 16 hexadecimal digits the shift loop never wraps and gives the number |
| JsonTheorems.HexReader | src/ngx_nats_json.c:438-487 | Hexadecimal texts are accepted if and only if they have 1 to 16 digits, and give the two's complement value |
| JsonTheorems.NumberExact | src/ngx_nats_json.c:438-593 | The number reader accepts exactly hexadecimal, decimal and strtod texts, with their values |
| JsonAccepts.StringAccepted | src/ngx_nats_json.c:336-435 | A string body of the grammar that is not too long is decoded completely and stops behind its closing quote |
| JsonAccepts.ValueAccepted | src/ngx_nats_json.c:596-749 | Every text of the grammar is accepted with its value and exact length |
| JsonAccepts.ItemsAccepted | src/ngx_nats_json.c:218-293 | The same for array bodies |
| JsonAccepts.MembersAccepted | src/ngx_nats_json.c:111-215 | The same for object bodies |
| JsonSound.StringSound | src/ngx_nats_json.c:336-435 | Whatever string is accepted is a string body of the grammar with that decoding |
| JsonSound.ValueSound | src/ngx_nats_json.c:596-749 | Whatever is accepted is a text of the grammar with that value and length |
| JsonSound.ItemsSound | src/ngx_nats_json.c:218-293 | The same for array bodies |
| JsonSound.MembersSound | src/ngx_nats_json.c:111-215 | The same for object bodies |
| JsonTheorems.AcceptanceExact | src/ngx_nats_json.c:111-749 | The recursive descent succeeds with a value and a position if and only if the grammar reads that value from that stretch of text |
| JsonTheorems.Unambiguous | src/ngx_nats_json.c:596-749 | The grammar gives one value and one length |
| JsonTheorems.SelfDelimiting | src/ngx_nats_json.c:596-803 | Containers and strings, and primitives with something behind them, keep value and length when anything is appended |
| JsonTheorems.PrimitiveAtEndIsOpen | src/ngx_nats_json.c:665-749 | A primitive at the end of the text does not |
| JsonTheorems.FinalIff | src/ngx_nats_json.c:596-803 | No continuation changes the answer if and only if the value is a container or string or something follows it |
| JsonTheorems.StringLimit | src/ngx_nats_json.c:299-435 | A closed well-formed string is accepted if and only if it decodes to at most 2^20 - 2 bytes |
| JsonMeaning.EscapeIff | src/ngx_nats_json.c:382-402 | Which byte each escape letter stands for, and that there is no other |
| JsonMeaning.CharactersIff | src/ngx_nats_json.c:671-677 | Which bytes are blanks, delimiters and quotes |
| JsonMeaning.HexDigitIff | src/ngx_nats_json.c:464-480 | The value of each hexadecimal digit |
| JsonMeaning.EscapedRead | src/ngx_nats_json.c:336-435 | Every byte string of at most 2^20 - 2 bytes comes back from its escaped text |
| JsonMeaning.StringCarries | src/ngx_nats_json.c:653-663 | The same for a string value in either quotes, behind blanks and before anything |
| JsonMeaning.LiteralIff | src/ngx_nats_json.c:687-705 | null, true and false in any mixture of cases are the literals, and nothing else is |
| JsonMeaning.DoubleIff | src/ngx_nats_json.c:714-740 | A double is a number with a point or an exponent, of at most 31 characters, that strtod reads to its end |
| JsonMeaning.StructureExample | src/ngx_nats_json.c:111-293 | The text [-1,{"a":true}] and its value |
| JsonPrinter.RoundTrip | src/ngx_nats_json.c:596-887 | Reading the printed text of a value, whatever follows a container or string, gives the value back and stops exactly behind it |
| JsonPrinter.WriteDigits | src/ngx_nats_json.c:808-887 | The digit loop from the right writes the shortest numeral of every 64-bit number and stays in its buffer |
| JsonPrinter.Printer.PrintValue | src/ngx_nats_json.c:808-887 | The recursive printer with its loops writes the specified text |
| JsonReader.Reader.constructor | src/ngx_nats_json.c:758-803 | A cursor at the start and a scratch string of the initial size |
| JsonReader.Reader.SkipSpaces | src/ngx_nats_json.c:89-109 | The cursor goes to the first non-blank byte, and stays where it was at the end of the text |
| JsonReader.Reader.EnsureStr | src/ngx_nats_json.c:299-333 | Room for one more byte and a terminator by doubling from 1024 up to 2^20, what was written survives; refused exactly at the limit |
| JsonReader.Reader.ParseString | src/ngx_nats_json.c:336-435 | Decoding into the growing scratch string, every write below its capacity, is the pure decoding |
| JsonReader.Reader.ParseHex | src/ngx_nats_json.c:438-487 | Refines the hexadecimal reading |
| JsonReader.Reader.ParseInt | src/ngx_nats_json.c:490-558 | Refines the decimal reading |
| JsonReader.Reader.ParseNumber | src/ngx_nats_json.c:707-749 | Refines the choice between hexadecimal, decimal and double |
| JsonReader.Reader.ParsePrimitive | src/ngx_nats_json.c:665-749 | Refines the reading of literals and numbers |
| JsonReader.Reader.ParseArray | src/ngx_nats_json.c:218-293 | The loop over the shared cursor is the recursive reading of an array body |
| JsonReader.Reader.ParseObject | src/ngx_nats_json.c:111-215 | The same for an object body |
| JsonReader.Reader.ParseFieldName | src/ngx_nats_json.c:160-183 | A non-empty name and its colon |
| JsonReader.Reader.ParseValueAt | src/ngx_nats_json.c:596-749 | The mutually recursive routines over the shared context terminate and refine the recursive reading |
| JsonReader.ReadJson | src/ngx_nats_json.c:758-803 | The entry point gives the specified result on every text |
| Random.NoOverflow | src/ngx_nats.c:890-896 | A step never overflows 32 bits |
| Random.Bijective | src/ngx_nats.c:890-896 | The step is a bijection of 0..a*2^16-1, with an inverse on either side |
| Random.EntersRange | src/ngx_nats.c:811-896 | Every seed is in that range two steps later |
| Random.StepCongruence | src/ngx_nats.c:890-896 | 2^16 times the next state is the state plus a multiple of a*2^16-1 |
| Random.Congruence | src/ngx_nats.c:890-896 | 2^(16k) times the k-th state is the seed plus a multiple of the modulus |
| Random.IterateDivides | src/ngx_nats.c:890-896 | The modulus divides the k-th state if and only if it divides the seed |
| Random.StuckIff | src/ngx_nats.c:890-896 | From the second step on the state is 0 or a*2^16-1 if and only if the modulus divides the seed |
| Random.EndsAreFixed | src/ngx_nats.c:890-896 | Those two states are fixed points |
| Random.Constants | src/ngx_nats.c:851-872 | Every choice is a pair of distinct multipliers for which the results above hold |
| Random.ConstantsTable | src/ngx_nats.c:851-872 | Which pair of multipliers belongs to which quarter |
| Random.Generator.constructor | src/ngx_nats.c:811-883 | Constants by quarter of the seed range, then as many steps skipped as asked for |
| Random.Generator.NextRandom | src/ngx_nats.c:890-896 | Both halves take one step; the result joins their low 16 bits |

## Left out

- Nginx module registration, configuration parsing, URL parsing and local address discovery: plumbing, except for the length check on user and password.
- Sockets, events, timers as clocks, logging and memory pools: outcomes are parameters, a timer is a flag. Allocations other than those of the two buffers always succeed.
- The ping timer handler (`src/ngx_nats_comm.c:310-330`): it adds only timing.
- Callbacks that call publish, subscribe or unsubscribe, or that close the connection, while a frame is handled: callbacks are log entries, and a `connected` callback may register clients.
- SessionObject.Conn.PublishM: does not model the error return when a message is refused, which needs a full write buffer of 256 MB or a failed allocation; commands are queued whole. `Refusals` says what a refusal leaves behind; `Output.OnTheWire` is about runs in which nothing is refused.
- SessionObject.Conn.SubscribeM: the same.
- SessionObject.Conn.UnsubscribeM: the same.
- LinkObject.NatsData.CallPublish: the same.
- LinkObject.NatsData.CallSubscribe: the same.
- LinkObject.NatsData.CallUnsubscribe: the same.
- LinkObject.NatsData.FlushBuffer: keeps whether bytes are unsent; which bytes went out is the subject of `Output`, and the buffer in place is the class `OutputObject.Writer` beside this one, not a field of it.
- Output.OnTheWire: is about runs without growth behind a partly sent window; `Buffer.WindowKeptIff` shows that otherwise the window is not kept.
- Lines.ConnectCarries: the object is read with the reader of this module, which accepts more than strict JSON.
- Commands.PublishSends: is about the queue; that the queue reaches the socket in order is `Output.OnTheWire`.
- Commands.SubscribeSends: the same.
- Commands.UnsubscribeSends: the same.
- WireInPlace.AtoiInPlace: a decimal field above the range of ngx_int_t is answered with the fault `Overflow`, which the source does not have, because C gives that computation no meaning; `WireOverflow` says which fields they are and what wrap-around makes of one.
- WireInPlace.ParseInPlace: the same.
- WireStability.FrameBounds: is about messages whose decimal fields fit ngx_int_t, the others being answered with `Overflow`.
- ReadLoop.ReadFromNats: for a stream in which the reading comes to such a message, the outcome is that of the model, not of the source; the same holds of LinkObject.NatsData.OnReadable.
- LinkTheorems.NeverStuck: is about runs without such messages.
- LinkTheorems.RunPromises: the same.
- BufferObject.NatsBuf.AddMessage: requires that the copy stays inside the allocation, because C leaves the other case undefined; `Buffer.OverrunIff` says exactly when that is.
- JsonPrinter.Printer.PrintValue: leaves out -2^63, whose negation C does not define, and shows a double by the text it was read from instead of formatting its value.
- JsonPrinter.RoundTrip: is about null, booleans, integers above -2^63, strings without quote, backslash and NUL, and containers of these with non-empty names; the printer does not escape, so other strings do not come back.
- Json: the value of a double is not computed; `strtod` is a predicate that says whether it consumes the whole text.
- Json: error positions, which no caller reads, and the depth of the C stack.
- Sids beyond the range of ngx_int_t, and a NULL subject in client calls.
- LinkObject.NatsData.GiveUpReading: the second close is modelled on the current connection structure; `LinkTheorems.GiveUpWaits` shows that no new connection can have been begun in between.
- Random.Generator.constructor: takes the quarter of the seed range and the number of skipped values as parameters; their floating-point computation and the seeding from OpenSSL are not modelled.
- The weight statistics of the generator, inbox names, and the full period of the generator, which rests on primality.
