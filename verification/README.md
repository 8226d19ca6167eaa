# Verified model of the browser-automation broker

A Dafny model of the parts of the repository whose correctness rests on whole runs, whole streams or
arithmetic over all inputs, with the properties the code is written to have:

- **Snapshot deltas** (`SnapshotDelta.dfy`): the bounded mutation log in the page, its drains, and the engine
  that answers `since_seq` with a delta or a full snapshot.
- **HAR recording** (`Har.dfy`, `Query.dfy`, `Timestamp.dfy`, `Calendar.dfy`): the request ring kept by the event pump, its
  export, and the hand-written RFC 3339 printer, parser and civil calendar behind it.
- **URL globs** (`Glob.dfy`): the compiler from glob to regex text, against a parser and matcher for the regex
  subset it emits.
- **Stream codecs** (`Framing.dfy`, `Lsp.dfy`, `LineProtocol.dfy`): NUL-delimited JSON with a cap,
  Content-Length framing, and the mixed JSON/binary line protocol.
- **Rendezvous and lifetime** (`BrokerClient.dfy`, `CdpRendezvous.dfy`, `Lifecycle.dfy`): concurrent protocols
  as state machines. `Next` gives the state after one atomic step of one party; `IsRun` is any interleaving.
- **Downloads** (`Download.dfy`): the resuming single-stream downloader against a server that tells the truth
  about one unchanging resource.
- **Element identity and tables** (`Identity.dfy`, `SnapshotTable.dfy`): sibling ranks, the stable-id preimage,
  element numbering and frame splicing.

`Text.dfy` holds bytes, decimal text and lexicographic order. `Codec.dfy` holds the libraries the code calls:
JSON text, bincode and UTF-8 are function values, and lemmas that need it take a hypothesis on them
(`JsonLawful`: print then parse is the identity, printed JSON is not empty and has no raw control byte,
section 7 of RFC 8259; `BincodeLawful`: encode then decode is the identity; `RejectsTruncated`: no
proper prefix of an encoding decodes to its value, needed only from 4 GiB on; `DecodesAscii`: UTF-8 decoding of
ASCII bytes is the identity).

Code that changes state in place is a class or a method proved against a function on values; the theorems are
lemmas about that function over all inputs or all runs.

## What the code does not promise

Each of these is a law that fails on some input. The model keeps the code as it is, a lemma names an input,
and another says exactly when the law holds.

- A printed timestamp is read back exactly from 1970 on and on whole seconds before; earlier fractions are
  printed by absolute value, so -1 ms and 1 ms print the same (`TimestampRoundTrip`, `BeforeEpochCollides`).
- A HAR export cutoff compares with truncated starts, so a fractional cutoff inside the printable range drops
  entries it should keep (`CutoffIsExact`, `FractionalCutoffDrops`).
- A full snapshot that fails after its drain consumes records that a later empty delta then skips
  (`ChainIsComplete`, `FailedSnapshotHidesARecord`).
- The session task may take a due deadline before a queued connect, so a client can be cut off
  (`DrainMeansIdle`, `QueuedClientIsCutOff`).
- A registration that is never matched by a disconnect keeps an unused session from draining
  (`IdleSessionDrains`, `LeakedSessionStays`).
- Frames completed by the read that also meets a bad frame are never dispatched, so what the connection
  delivers depends on how the pipe cuts the stream (`DispatchIsExact`, `CutDecidesDelivery`).
- CDP ids are counted per session but awaited in one shared map, so replies can go to another session's
  command, even after a timeout (`InsertIsSafe`, `StaleIdGoesAstray`, `SessionsCollide`, `LateReplyGoesAstray`),
  and a command can be failed as closed on an open connection (`DroppedExactly`, `CleanUpDropsAnother`).
- A binary vision line with an inner 0x0A, a final 0x0D or a length over the cap is not received
  (`CleanIsNeeded`), and what follows an inner 0x0A is read as lines of its own, so the client can see an event
  nobody queued (`InnerLineIsForged`, `ForgedEvent`).
- The in-flight map can hold an id nobody awaits: a call that finds no writer or is cancelled leaves its slot
  behind until a reply or a reader exit clears it, although a comment at `broker_client.rs:371-372` says that
  cancelling cleans up; a call that times out leaves it until it cleans up itself (`LeftBehindExactly`). A reply
  is then accepted (`AbandonedSlotTakesReply`, `CancelledCallTakesReply`); it still reaches nobody
  (`LateReplyReachesNobody`).
- A command sent when the reader task has ended waits for a signal that nothing will send (`StrandedExactly`,
  `LateCommandIsStranded`).
- A download resumed from a file that is not a prefix can succeed with wrong bytes (`ResumableIsNeeded`,
  `WrongStart`).
- A separator byte in a role, name or parent role lets two elements share an identity preimage
  (`PreimageIsUnique`, `SeparatorInRoleCollides`).

## Model

| member | source | states |
|---|---|---|
| SnapshotDelta.SnapshotEngine.RecordMutation | crates/ax-engine/src/mutation.rs:70-87 | the in-page log after one record is the specification's log: numbered one past the counter, the oldest record gone past 4096 |
| SnapshotDelta.SnapshotEngine.DrainLog | crates/ax-engine/src/mutation.rs:110-114 | a drain hands over the whole log and empties it, or fails leaving what the failure leaves |
| SnapshotDelta.SnapshotEngine.NextSnapshotSeq | crates/browser-engine/src/page.rs:321-327 | each call spends one fresh sequence number and touches nothing else |
| SnapshotDelta.SnapshotEngine.DoSnapshot | crates/browser-engine/src/snapshot.rs:340-402 | the in-place snapshot spends a number first and moves the anchor only if it completes |
| SnapshotDelta.SnapshotEngine.DrainHighWater | crates/browser-engine/src/snapshot.rs:604-616 | the mark is the largest drained number, and 0 after an empty or failed drain |
| SnapshotDelta.SnapshotEngine.TakeSnapshot | crates/browser-engine/src/snapshot.rs:164-180 | the in-place full snapshot refines the specification step |
| SnapshotDelta.SnapshotEngine.SnapshotDeltaSince | crates/browser-engine/src/snapshot.rs:202-331 | every branch of the in-place delta request (zero base, child frames, probe failure, stale anchor, failed drain, gap, delta) refines the specification step |
| SnapshotDelta.SnapshotEngine.FrameNavigated | crates/browser-engine/src/page.rs:659-666 | navigation empties the log, restarts its numbers and drops the anchor |
| SnapshotDelta.StepKeepsInv | crates/browser-engine/src/snapshot.rs:164-402 | every step keeps the log a window of consecutive numbers ending at the counter, full whenever anything fell out, and the anchor's mark at or below the last drain |
| SnapshotDelta.DeltaFillsTheGap | crates/browser-engine/src/snapshot.rs:262-331 | a delta carries exactly the consecutive numbers between the old mark and the new one, each once, in order; a non-empty delta starts where the last drain ended |
| SnapshotDelta.GapTestIsExact | crates/browser-engine/src/snapshot.rs:630-635 | for a request on the anchor's number, a delta is answered if and only if the log is empty or holds every number after the mark; it then carries the whole log |
| SnapshotDelta.AnswersExactly | crates/browser-engine/src/snapshot.rs:202-331 | from the request's inputs alone: a delta exactly on an anchored request whose drain gives no value or leaves no gap, an error exactly otherwise when the snapshot fails or the frame probe does, else a full snapshot |
| SnapshotDelta.FullSnapshotMark | crates/browser-engine/src/snapshot.rs:164-201 | a full snapshot, on every path, leaves an anchor with its own number and, as mark, the newest record if the drain behind it delivered any, else 0; it names the base asked for and calls the anchor stale exactly for a non-zero base |
| SnapshotDelta.DeltaAfterSnapshot | crates/browser-engine/src/snapshot.rs:262-331 | over every run, a full snapshot whose drain delivered records, up to 4096 records and a request since it: the answer is a delta with exactly those records, kinds and tags included, in order |
| SnapshotDelta.NavigationStartsOver | crates/browser-engine/src/page.rs:659-666 | after a navigation the first record is number 1, and a request since an old number gets a full snapshot marked there |
| SnapshotDelta.IssuedSeqsIncrease | crates/browser-engine/src/page.rs:321-353 | over every run, later answers carry strictly larger sequence numbers |
| SnapshotDelta.DeltaAnswersTheLatest | crates/browser-engine/src/snapshot.rs:229-262 | over every run, a delta's base is an earlier answer with no other answer, navigation or anchor clear in between |
| SnapshotDelta.NoSilentLoss | crates/browser-engine/src/snapshot.rs:164-402 | over every run and every chain of deltas each asked with the previous number, the concatenated records are the consecutive numbers between the first mark and the last, whatever overflows or failed drains occur; once anything is delivered the chain starts at the last drain before it |
| SnapshotDelta.ChainIsComplete | crates/browser-engine/src/snapshot.rs:164-402 | such a chain delivers exactly what was drained in its span if and only if no step in it, judged by its inputs, meets a non-empty log and either fails its full snapshot after the drain or drains without a value |
| SnapshotDelta.LossyExactly | crates/browser-engine/src/snapshot.rs:202-402 | in every reachable state a step drains records and answers nobody exactly under that input condition |
| SnapshotDelta.FailedSnapshotHidesARecord | crates/browser-engine/src/snapshot.rs:340-402 | a four-step run in which a failed full snapshot makes the next delta silently skip a record |
| Calendar.YearOfEraOfSplit | crates/browser-engine/src/network.rs:650-667 | the closed-form year of a 400-year era agrees with the century, leap-group and year it is made of |
| Calendar.DaysFromCivilIsInverse | crates/browser-engine/src/network.rs:650-680 | every day number, before and after 1970, becomes a valid Gregorian date (4/100/400 rule, month table) that converts back to it |
| Calendar.CivilFromDaysIsInverse | crates/browser-engine/src/network.rs:650-680 | every valid Gregorian date survives conversion to a day number and back |
| Calendar.NextDateIsOneDayLater | crates/browser-engine/src/network.rs:669-680 | the calendar's next date is one day number later, across months, years, leap days and eras |
| Calendar.NextDayIsNextDate | crates/browser-engine/src/network.rs:650-667 | day 0 is 1970-01-01 and consecutive days are consecutive calendar dates |
| Calendar.CivilIsMonotone | crates/browser-engine/src/network.rs:650-667 | later days are later dates |
| Calendar.DateTimeRoundTrip | crates/browser-engine/src/network.rs:650-680 | every valid date-time survives conversion to Unix seconds and back |
| Calendar.UnixSecsRoundTrip | crates/browser-engine/src/network.rs:650-680 | every second count gives a valid date-time that converts back to it |
| Calendar.DateTimeIsMonotone | crates/browser-engine/src/network.rs:650-667 | later seconds are later date-times |
| Timestamp.FixedLayout | crates/browser-engine/src/network.rs:616-624 | every year 0-9999 prints as 24 characters with each zero-padded field at the offset the parser reads and every separator in its place |
| Timestamp.ParsePrinted | crates/browser-engine/src/network.rs:616-646 | parsing a printed date-time gives its millisecond count |
| Timestamp.ParseOfPrefix | crates/browser-engine/src/network.rs:626-646 | of every cut of a printed text, nothing under 19 characters is read and a fraction counts only when all of it is there |
| Timestamp.CastTruncates | crates/browser-engine/src/network.rs:616-620 | the cast to whole milliseconds drops the fraction toward zero and saturates at the 64-bit range |
| Timestamp.YearText | crates/browser-engine/src/network.rs:623 | every year, negative ones included, prints as its digits at least four places wide |
| Timestamp.TimestampRoundTrip | crates/browser-engine/src/network.rs:616-646 | over years 0-9999 the parser undoes the printer if and only if the instant is from 1970 on or a whole second |
| Timestamp.BeforeEpochCollides | crates/browser-engine/src/network.rs:616-624 | -1 ms and 1 ms print the same |
| Timestamp.LaterPrintsGreater | crates/browser-engine/src/network.rs:616-624 | a later date-time prints lexicographically greater |
| Timestamp.TimestampOrder | crates/browser-engine/src/network.rs:616-624 | from 1970 through 9999, instants are ordered exactly as their texts (section 5.1 of RFC 3339) |
| Har.HarRing.RecordRequest | crates/browser-engine/src/network.rs:431-488 | a request opens, or replaces, the record of its id, with its headers and body size, and closes none |
| Har.HarRing.RecordResponse | crates/browser-engine/src/network.rs:490-523 | a response updates only an open record of its id, keeping earlier headers if it brings none, and returns its wall time exactly when there is such a record |
| Har.HarRing.RecordTerminal | crates/browser-engine/src/network.rs:525-553 | a finish or failure moves exactly the open record of its id to the ring; an unknown id changes nothing |
| Har.HarRing.PushEntry | crates/browser-engine/src/network.rs:555-597 | the ring takes one entry at the end, with headers, query string and timing, and loses its oldest past the cap |
| Har.EventPump.Handle | crates/browser-engine/src/page.rs:671-696 | the pump's ring, in-flight set and counters follow the specification step for every event |
| Har.OpenIsExact | crates/browser-engine/src/network.rs:405-553 | after any events the in-flight set equals the open records, and each open record is built from its latest unanswered request, the last response since, and the headers of the last response since that had any |
| Har.ClosedIsExact | crates/browser-engine/src/network.rs:525-597 | after any events the ring is the last 1024 finalised records in finalisation order, each built from its own request, last response and terminal event |
| Har.RingMatchesEvents | crates/browser-engine/src/network.rs:431-597 | entry by entry and field by field from the events alone: the ring's entries carry their own request's id, start, verb, URL, headers, body size and query, the elapsed time cut at zero, the last response's status, text, type and headers, the terminal's truncated length, and the error text exactly for a failure without status |
| Har.ResponseTimeIsWallTime | crates/browser-engine/src/network.rs:516-521 | the time returned for a response is the request's wall time moved on by the monotonic clock |
| Har.RequestFinalisedOnce | crates/browser-engine/src/network.rs:525-553 | no request event is finalised twice, and finalisations follow event order |
| Har.CountersConserve | crates/browser-engine/src/page.rs:568-577 | counts returned by all snapshot drains plus the current counters equal the finished and failed events seen |
| Har.CutoffIsExact | crates/browser-engine/src/network.rs:599-610 | the export filter keeps exactly the entries started at or after the cutoff if and only if the cutoff is whole or outside the printable range |
| Har.UnreadableIsExported | crates/browser-engine/src/network.rs:599-610 | an entry whose start does not read back is exported whatever the cutoff |
| Har.FractionalCutoffDrops | crates/browser-engine/src/network.rs:599-610 | a request started at 0.5 ms is dropped by a cutoff of 0.5 ms |
| Har.ExportIsExact | crates/browser-engine/src/network.rs:1016-1032 | after any events an export with a whole cutoff is exactly the retained records started at or after it, in order, although the filter re-parses its own texts |
| Query.QueryRoundTrip | crates/browser-engine/src/network.rs:682-703 | for every base, list of pieces (pairs, bare names, blanks) and fragment, the query of the URL written from them is read back piece by piece: a bare name has an empty value, a blank is skipped |
| Query.NoQuery | crates/browser-engine/src/network.rs:682-690 | a URL with no `?` before its fragment has no pairs |
| Glob.GlobToRegex | crates/browser-engine/src/network.rs:712-728 | the text built by the loop is a regex of the subset, and it accepts exactly the strings the glob accepts |
| Glob.EscapesExactlySyntax | crates/browser-engine/src/network.rs:716-724 | the characters the compiler escapes are exactly the regex syntax characters |
| Glob.CompiledParses | crates/browser-engine/src/network.rs:712-728 | the emitted text parses to one item per pattern character between the two anchors: every escape is read back as its literal |
| Glob.CompiledMeansTheSame | crates/browser-engine/src/network.rs:712-728 | for every pattern and string the anchored items match if and only if the glob does, `*` being any newline-free run |
| Framing.Decoder.FeedInto | crates/cdp-client/src/framing.rs:99-142 | the scan-and-drain loop gives the verdict of the buffered bytes and the chunk taken as one stream |
| Framing.Decoder.ReadPipe | crates/cdp-client/src/connection.rs:182-209 | the reader loop reads on to the first empty read, hands on the frames of the reads before a fault and none of the failing read, and ends with the verdict of the whole stream; with no empty read and no fault it hands on everything the stream decodes to |
| Framing.DispatchIsExact | crates/cdp-client/src/connection.rs:182-209 | what is handed on is always a prefix of what the stream decodes to, and all of it if and only if the read with the first bad frame completed no frame before it; in particular whenever there is no fault |
| Framing.DispatchedBefore | crates/cdp-client/src/connection.rs:182-209 | if the fault comes with the read after the first k, exactly what those k decode to is handed on |
| Framing.CutDecidesDelivery | crates/cdp-client/src/connection.rs:194-209 | for every good and bad frame: in one read the good one is lost, in two it is delivered |
| Framing.Decoder.Finish | crates/cdp-client/src/framing.rs:144-150 | the end is clean if and only if no frame is open, that is, for any stream without faults that led here, if and only if the stream is empty or ends in NUL |
| Framing.Decode | crates/cdp-client/src/framing.rs:86-142 | what stays open after a success is NUL-free and within the cap |
| Framing.DecodeInTwo | crates/cdp-client/src/framing.rs:99-142 | the verdict on a stream cut in two is the verdict on the first part continued with its residue, faults included |
| Framing.ChunkInvariance | crates/cdp-client/src/framing.rs:86-142 | every way to cut a stream gives the same values in the same order and the same residue or the same first fault |
| Framing.FramesRoundTrip | crates/cdp-client/src/framing.rs:32-52 | values whose text fits the cap are decoded exactly, in order, with nothing left over, however the pipe cuts them |
| Lsp.ReadLspFrame | crates/mcp-server/src/mcp.rs:154-200 | the byte-by-byte reader computes the one-pass specification, error and end-of-stream cases included |
| Lsp.HeaderBlockDecides | crates/mcp-server/src/mcp.rs:175-200 | for any block of header lines the length they scan to alone decides the result and what is left: bad, missing, over the cap, past the end, or that many bytes |
| Lsp.FieldScans | crates/mcp-server/src/mcp.rs:177-191 | a header field with any padding counts exactly when its key is content-length in any case; its value then makes the length known or malformed |
| Lsp.NoHeaderEnd | crates/mcp-server/src/mcp.rs:154-174 | with no blank line in its first 8 KiB and one byte a stream is at its end if no longer than 8 KiB, else its header is too long |
| Lsp.FrameRoundTrip | crates/mcp-server/src/mcp.rs:363-375 | a frame of up to 16 MiB is read back as its body and leaves the rest of the stream untouched, whatever bytes follow or fill it |
| Lsp.StreamRoundTrip | crates/mcp-server/src/mcp.rs:154-200 | repeated reads of concatenated frames give the bodies in order and then end of stream, also when the stream breaks off inside a further header |
| LineProtocol.EncodeVisionFrameInto | crates/broker/src/protocol.rs:338-355 | the scratch buffer grows by the magic byte, the four length bytes, the payload and a line feed |
| LineProtocol.LeRoundTrip | crates/broker/src/protocol.rs:338-355 | the four little-endian bytes read back as the length modulo 2^32 |
| LineProtocol.DecodeVision | crates/mcp-server/src/broker_client.rs:672-696 | an encoded vision frame under 4 GiB decodes to its event |
| LineProtocol.WriteQueue | crates/broker/src/server.rs:114-144 | the writer task puts on the wire, in order, the lines of the events it can encode, up to the first failed write and the part of a line that one leaves |
| LineProtocol.FaultyStreamIsPrefix | crates/mcp-server/src/broker_client.rs:495-533 | whatever encode and write failures occur, the client receives exactly the clean events written whole, in order, and then at most one event read from the torn line |
| LineProtocol.ReadLoop | crates/mcp-server/src/broker_client.rs:495-533 | the reader loop computes the line-by-line specification, dropping empty, oversized and malformed lines |
| LineProtocol.MixedStreamRoundTrip | crates/mcp-server/src/broker_client.rs:495-533 | every queue of JSON and binary events with clean lines is received as sent: same events, same order, none misclassified |
| LineProtocol.JsonStreamRoundTrip | crates/broker/src/server.rs:114-144 | every queue of JSON events whose lines fit the cap is received as sent, with no further condition |
| LineProtocol.CleanIsNeeded | crates/mcp-server/src/broker_client.rs:495-533 | for a payload of any length, the line the client reads for a binary event gives that event back if and only if it is clean: no inner 0x0A, no final 0x0D, within the cap |
| LineProtocol.InnerLineIsForged | crates/mcp-server/src/broker_client.rs:495-533 | a payload that holds a JSON line between two newlines makes the client receive that event, between what the bytes before and after it read as |
| LineProtocol.ForgedEvent | crates/broker/src/protocol.rs:338-355 | for every JSON value a queue of one binary frame whose reader sees an event nobody queued |
| Lifecycle.SessionTask.Handle | crates/broker/src/lifecycle.rs:84-129 | count, deadline and exit after a message follow the specification |
| Lifecycle.StepKeepsInv | crates/broker/src/lifecycle.rs:69-129 | every step of connections, clock and task keeps the account of registrations, no disconnect overtakes its connect, and the deadline dates from the last message |
| Lifecycle.RegistrationsAreConserved | crates/broker/src/server.rs:189-229 | over every run, the handled count plus the queued connects minus disconnects equals the live and leaked registrations; an armed deadline means nobody is counted |
| Lifecycle.DrainMeansIdle | crates/broker/src/lifecycle.rs:69-129 | a drain at time t means the last handled message was a disconnect at or before t - `drain_after` that left the count at zero; it cuts off exactly as many live clients as connects are queued beyond the disconnects and the leaked registrations, so none if and only if those balance |
| Lifecycle.IdleSessionDrains | crates/broker/src/lifecycle.rs:69-129 | over every run, a running task with an empty channel has a deadline armed, and fires once the drain window has passed, if and only if it has served somebody, nobody is connected and no registration has leaked |
| Lifecycle.LeakPreventsDrain | crates/broker/src/server.rs:189-229 | at any time after a leak, the deadline fires only with connects queued: beyond the disconnects, one for every leaked registration and every live client |
| Lifecycle.LeakedConnectIsDrained | crates/broker/src/server.rs:189-229 | a run in which a session with a leaked registration drains without a live client |
| Lifecycle.LeakedSessionStays | crates/broker/src/server.rs:189-229 | a three-step run, ended by a read error, after which nobody is connected and no deadline is armed |
| Lifecycle.QueuedClientIsCutOff | crates/broker/src/lifecycle.rs:69-129 | a seven-step run that drains the session with a client's connect queued |
| BrokerClient.StepKeepsInv | crates/mcp-server/src/broker_client.rs:407-656 | every step of callers, timers, reader, redial and cancellation keeps ids in order, in-flight slots empty and owned by one call, and every phase consistent with what was issued and written |
| BrokerClient.IdsNeverReused | crates/mcp-server/src/broker_client.rs:436-483 | over every run no two sends carry the same id |
| BrokerClient.SentAtMostTwice | crates/mcp-server/src/broker_client.rs:407-434 | a call is written at most twice, and the step that writes it again starts from a state in which that call has already seen a transport failure |
| BrokerClient.AnswersAreOwn | crates/mcp-server/src/broker_client.rs:628-656 | a successful outcome is the body of an earlier response carrying an id this call was awaiting at that moment, and no other call ever owned that id (section 5 of the JSON-RPC 2.0 specification) |
| BrokerClient.AnswerIsDelivered | crates/mcp-server/src/broker_client.rs:471-482 | over every run, a reply read while its call waits is that call's outcome: from then on it still waits and can be woken to exactly this answer, or has been, or was cancelled; no timer, reader exit or other reply comes between |
| BrokerClient.OutcomeHasCause | crates/mcp-server/src/broker_client.rs:407-482 | over every run each outcome has its cause: an answer a wake-up, a timeout the call's own timer or a late redial, giving up a transport failure on the second attempt, and so on |
| BrokerClient.TimerEndsCall | crates/mcp-server/src/broker_client.rs:478-481 | over every run, a timer that fires ends its call as timed out |
| BrokerClient.ClosedSocketMovesOn | crates/mcp-server/src/broker_client.rs:420-425 | a waiting call whose socket closes can no longer time out, and goes to a redial on the first attempt, to giving up on the second |
| BrokerClient.RedialGivesWriter | crates/mcp-server/src/broker_client.rs:485-488 | over every run, after a successful redial there is a writer until some write fails |
| BrokerClient.RedialSendsAgain | crates/mcp-server/src/broker_client.rs:415-433 | a redial in time is followed by a second send under a fresh id; one that is late ends the call as timed out |
| BrokerClient.WaitingWasWritten | crates/mcp-server/src/broker_client.rs:459-471 | over every run, a call that waits has put its request, under that id, on the wire |
| BrokerClient.LateReplyReachesNobody | crates/mcp-server/src/broker_client.rs:628-656 | over every run, a response for an id no call awaits, even one accepted into a slot left behind, settles no call: whoever ever ends with an answer under that id had it already or, for an id not yet issued, has it from another response read later while waiting |
| BrokerClient.AbandonsExactly | crates/mcp-server/src/broker_client.rs:436-483 | after any step from a reachable state an id is in flight with nobody awaiting it if and only if the step abandoned it, or it was so before and the step did not clear it |
| BrokerClient.LeftBehindExactly | crates/mcp-server/src/broker_client.rs:371-483 | over every run, an id is in flight with nobody awaiting it if and only if an earlier step abandoned it (no writer, timer fired, call cancelled) and no step since has cleared it (reply read, reader exit, clean-up after the timer) |
| BrokerClient.CancelledCallTakesReply | crates/mcp-server/src/mcp.rs:244-253 | a run in which a waiting call is cancelled, stays in the map, and its reply is accepted |
| BrokerClient.AbandonedSlotTakesReply | crates/mcp-server/src/broker_client.rs:436-483 | a run in which a call fails for want of a writer and a reply to its abandoned id is accepted with nobody awaiting it |
| CdpRendezvous.DrainOnClose | crates/cdp-client/src/connection.rs:211-225 | the close-time loop, undisturbed, ends with an empty map and every parked command failed as closed, whatever order the map gives |
| CdpRendezvous.StepKeepsInv | crates/cdp-client/src/session.rs:275-321 | every step (numbering, inserting, enqueuing, replies, wake-ups, timeouts, clean-ups and the closing drain, each on its own) keeps the map exact: it holds precisely the inserted commands not yet signalled, each under its own id |
| CdpRendezvous.InsertIsSafe | crates/cdp-client/src/session.rs:286-294 | after an insertion the reply to every command that has been or may yet be sent can only reach that command or nobody, if and only if no such command carries the id |
| CdpRendezvous.StaleIdGoesAstray | crates/cdp-client/src/session.rs:286-321 | every run whose first insertion under an id still owed a reply happens while the reader reads can go on, in at most two steps, so that a reply reaches the wrong command |
| CdpRendezvous.RepliesAreOwn | crates/cdp-client/src/connection.rs:233-269 | over every run whose insertions use such ids, a command that got a reply got the reply to itself |
| CdpRendezvous.ResolvedOnce | crates/cdp-client/src/connection.rs:233-269 | over every run, collisions included, a command is signalled at most once and its outcome never changes |
| CdpRendezvous.SignalDecides | crates/cdp-client/src/session.rs:296-320 | over every run, a waiting command that has been signalled cannot time out any more, can be woken, and ends with what the signal says: the reply, or closed |
| CdpRendezvous.FailureDecides | crates/cdp-client/src/session.rs:291-308 | over every run, a command whose timer fires ends as timed out, one the writer refuses as closed |
| CdpRendezvous.TimedOutHasCause | crates/cdp-client/src/session.rs:304-307 | over every run, only its own timer makes a command end as timed out |
| CdpRendezvous.StrandedExactly | crates/cdp-client/src/connection.rs:211-225 | over every run, once the reader task has ended, the commands left without a signal are exactly those inserted after it ended and not dropped by a command with the same id; the others have theirs, and these get no reply or closure any more |
| CdpRendezvous.LateCommandIsStranded | crates/cdp-client/src/session.rs:286-321 | a run in which a command sent after the reader task has ended waits with nobody left to answer or fail it |
| CdpRendezvous.DroppedExactly | crates/cdp-client/src/session.rs:286-321 | over every run, a command has lost its sender if and only if there was a step in which a command with the same id, of whatever session, inserted or cleared that id while this one was listening |
| CdpRendezvous.CleanUpDropsAnother | crates/cdp-client/src/session.rs:296-312 | a run, with fresh ids and an open connection, in which one command's clean-up after a timeout fails another session's command as closed |
| CdpRendezvous.SessionsCollide | crates/cdp-client/src/session.rs:107 | a run in which two sessions' first commands share an id: one is dropped, the other gets its reply |
| CdpRendezvous.LateReplyGoesAstray | crates/cdp-client/src/session.rs:275-321 | a run with at most one command in the map at a time in which a late reply goes to the wrong command |
| Download.StreamAttempt | crates/chromium-fetcher/src/download.rs:167-283 | the chunk loop of one attempt computes the specification's outcome and file for every status, range and fault |
| Download.StreamedMeans | crates/chromium-fetcher/src/download.rs:167-283 | an attempt is fatal exactly on an unretryable error, a failed write or a status that is no success, 416 or transient one; done exactly on a success read to its end; and the file keeps its bytes exactly when the answer continues them |
| Download.SingleStreamToTmp | crates/chromium-fetcher/src/download.rs:403-531 | the retry loop computes the specification's result, file, attempts, pauses and wipes |
| Download.EffortIsBounded | crates/chromium-fetcher/src/download.rs:403-531 | at most `max_attempts` attempts, each after a deadline check that passed, at most one 416 wipe, and no pause past the deadline |
| Download.StreamFollowsAnswers | crates/chromium-fetcher/src/download.rs:403-531 | from the server's answers alone: each attempt asks from the end of the file as it then is (0 after a 416) and leaves what the answer makes of it; every answer but the last is one to go on after; the result is fatal exactly after a fatal answer, refused exactly after a second 416, exhausted exactly when no attempt is left, else the file is complete or the deadline has passed |
| Download.PausesDouble | crates/chromium-fetcher/src/download.rs:511-523 | pause i is the initial backoff doubled i times, capped from the second on by the maximum, and always by the time left |
| Download.PausesBetween | crates/chromium-fetcher/src/download.rs:500-523 | the loop pauses after every answer it goes on from except a 416, and at no other time |
| Download.AttemptKeepsPrefix | crates/chromium-fetcher/src/download.rs:167-283 | one attempt against a truthful server leaves a prefix of the resource |
| Download.DownloadIsExact | crates/chromium-fetcher/src/download.rs:403-561 | against any truthful server and any mix of drops, stalls, 5xx, 200-for-206 and 416, a resumable file stays a prefix, success means it equals the resource, and whatever gets renamed is the resource; after a success the rename check fails only for an empty resource with no file |
| Download.ResumableIsNeeded | crates/chromium-fetcher/src/download.rs:403-531 | every successful download is exact, for all truthful servers, if and only if the starting file is resumable |
| Identity.ComputeSiblingIndices | crates/ax-engine/src/merge.rs:295-343 | the map built by the loops gives every identified node its parent's role and the number of earlier same-role siblings |
| Identity.RanksAreDense | crates/ax-engine/src/merge.rs:295-343 | in a well-formed tree the same-role children of a node get exactly the ranks 0, 1, ..., k-1 in order |
| Identity.IdentityIsStable | crates/ax-engine/src/merge.rs:295-343 | a node's preimage is the same in any two trees that agree on its role, name, parent role and the order of its same-role siblings |
| Identity.EditKeepsIdentity | crates/ax-engine/src/merge.rs:295-343 | between any two trees in which a node's parent's child list differs by adding, taking away and moving children of other roles, and the remaining children keep their roles, the node keeps its preimage, whatever happens elsewhere |
| Identity.PreimageIsInjective | crates/ax-engine/src/index.rs:38-53 | with separator-free roles the preimage determines role, name, parent role and rank, whatever the names hold |
| Identity.PreimageLayout | crates/ax-engine/src/index.rs:38-53 | the hashed bytes are role, name, parent role and decimal rank, in that order, each but the last followed by 0x1F |
| Identity.RootInput | crates/ax-engine/src/merge.rs:295-343 | a node whose parent is not in the tree is identified under an empty parent role with rank 0 |
| Identity.PreimageIsUnique | crates/ax-engine/src/index.rs:38-53 | no other element of any kind shares a preimage if and only if role, name and parent role are separator-free |
| SnapshotTable.SnapshotParts | crates/browser-engine/src/snapshot.rs:429-503 | element i has index i, ref `e<i>`, the role and name of node i, and a stable input whose counter is the number of earlier nodes with its role and parent role |
| SnapshotTable.KeyMeans | crates/browser-engine/src/snapshot.rs:437-450 | elements are counted by their own role and the role of the first node that carries the parent's id, empty if none does |
| SnapshotTable.RefNamesIndex | crates/browser-engine/src/snapshot.rs:490-492 | a ref is the letter e followed by the element's index |
| SnapshotTable.PlacesAreDistinct | crates/browser-engine/src/snapshot.rs:429-503 | no two nodes of one frame share role, parent role and counter |
| SnapshotTable.PreimagesAreDistinct | crates/browser-engine/src/snapshot.rs:696-708 | with separator-free roles, whatever the names, no two elements of one frame share the bytes their stable ids are the hash of |
| SnapshotTable.SeparatorInRoleShares | crates/browser-engine/src/snapshot.rs:696-708 | for every role with a separator a frame in which two elements share them |
| SnapshotTable.Splice | crates/browser-engine/src/snapshot.rs:579-586 | appending a child frame keeps the table numbered by position, the parent untouched and the child's elements the same but for numbering |
| SnapshotTable.SpliceAll | crates/browser-engine/src/snapshot.rs:351-360 | after any list of child frames every element sits at its own index, in order, with all else unchanged |

## Left out

- Integer widths: sequence numbers, ids, counters and lengths are unbounded; the code uses u64, usize and JS numbers. Parsed decimals do check their u32, i64 and usize bounds.
- Floating point: wall times and cutoffs are reals, so rounding of f64 milliseconds is not modelled; timestamps are parsed from ASCII text.
- Snapshot contents: a snapshot is its sequence number, base and staleness; calls on one page do not overlap, and navigation with its anchor clear is one step.
- HAR entry constants: the empty cookie lists and redirect URL, the -1 header sizes and the zero timings are not fields of the model.
- HAR synthetic requests, WebSocket frames and event-source messages, which go to other queues.
- Glob registry: regex size limits, the order of overlapping handlers and fetch dispatch are not modelled.
- Merge filtering, nodes without an id, bounding boxes, SHA-256 itself and the per-frame remix of ids: identity is stated on the hash preimage.
- BrokerClient: callers, reader and redial share maps behind locks; they are interleaved steps on values, so locking and aliasing are not captured. A cancelled write puts its whole request on the wire or nothing; the part of a line it may leave before the next one is left out, and so is event broadcast.
- CdpRendezvous: the same; session drop and re-creation under an old name, event routing and the retry policy are left out, and a command the writer accepts but never writes is one that is never answered.
- Lifecycle: the message handler is imperative, the `select` loop is a choice of steps on values; the exit on a closed channel and registrations after the task has exited are left out.
- Download.StreamAttempt: takes every byte written to be in the file when the attempt ends; the source drops its file handle without a flush on a stall or a read error, so a late background write is not modelled.
- Download: opening, flushing, syncing and truncating the file succeed; the one local fault is a failed write. Redirects, checksums, the multi-part path and extraction are left out.
- Har.CutoffIsExact: stated for starts from 1970 through year 9999, the range in which the code prints four-digit years that read back.
- Timestamp.TimestampOrder: stated from 1970 on, because earlier fractions print by absolute value and so out of order.
- Browser start and recovery, page actions, sandbox, system control, vision, tracing and metrics: foreign calls or thin wrappers.
- Liveness: everything here is safety; progress depends on the scheduler and the peer.
