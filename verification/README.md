# A verified model of the powerlink-rs stack core

`powerlink-rs` is a `no_std` implementation of Ethernet POWERLINK (EPSG DS 301). This project models the parts of the
crate `powerlink-rs` that hold its state and its arithmetic, and proves what they do over whole runs:

- **SDO client** (`ConciseDcf`, `WriteFrames`, `ClientSteps`, `ClientConnections`, `ClientTimers`, `ClientRuns`,
  `ClientReads`, `ClientProgress`, `ClientManagers`, `ManagerRuns`): a connection parses a Concise DCF stream, cuts
  each write into segments and sends them stop-and-wait with six-bit sequence numbers, retries and aborts; the manager
  keeps one connection per node.
- **SDO embedded in PDO** (`EmbeddedCodec`, `EmbeddedServers`, `EmbeddedOutcomes`, `EmbeddedClients`,
  `EmbeddedChannel`, `EmbeddedDelivery`, `EmbeddedAnswers`): codec, both ends, when and why a command is aborted, the
  two of them over a channel that keeps the order but may lose and repeat containers, exactly what is executed when it
  loses none, and what is taken as an answer on the way back.
- **Object dictionary, storage and process data** (`ObjectValues`, `Entries`, `Persistence`, `ObjectDictionaries`,
  `DictionaryRuns`, `Boots`, `PowerOns`, `PdoMapping`, `PdoHandlers`, `PdoReception`, `MultiReads`): typed values and
  their wire form, reads and writes, stored parameters over reboots, mapping validation, unpacking of received PDOs,
  and the response to a read of several parameters.
- **State machines** (`DllCycle`, `NmtStates`, `NmtMachines`, `NmtRuns`, `NodeRuns`): the DLL cycle of a controlled
  node, the NMT machines of both kinds of node with their resets, and runs of a node.

What the source changes in place is a class here, and each of its methods is proved equal to a specification function
on values (`HandleResponse` to `Responded`, `GetPendingRequest` to `Polled`, `Init` to `InitSpec`, and so on). The
theorems are about those functions: over every interleaving of timeouts, requests and arbitrary responses, every
sequence of manager operations, every sequence of writes, resets and boots. `Bytes`, `Utf8`, `SdoCommands` and
`Wrappers` hold what the modules share; `WireLayouts` says byte by byte where each field stands. `dafny verify
dfyconfig.toml` checks the whole project.

Integers have the widths of the source: `u8` to `u64` and `i8` to `i64` are subset types, and each wrap-around, cut or
saturation that can happen is written out.

## What the code does that its documentation does not say

- A write of 1453 to 1456 bytes starts with a frame labelled Expedited that carries only 1452 of them
  (`WriteFrames.LabelsExact`).
- A server frame that repeats the last number still clears the outstanding frame. A read whose request is acknowledged
  that way hangs for ever, without a timer (`ClientProgress.HangsExactly`, `HangsForever`).
- Writing the count of a PDO mapping is validated and reported as a success but stores nothing; a smaller count, 0
  included, does not deactivate the entries behind it (`EmbeddedServers.CountWriteThenRead`,
  `PdoMapping.CountConditionIsExact`).
- Saving and restoring cannot be commanded over the embedded server as long as 0x1010 and 0x1011 hold the numbers that
  a boot puts there: the signature is decoded as a number and refused (`EmbeddedOutcomes.BootedCommandsFail`).
- A fresh pair of embedded client and server loses its first request (`EmbeddedDelivery.FreshPairLosesFirst`). An idle
  container of at least eight bytes passes for number 0 and then costs the request with that number
  (`EmbeddedDelivery.SynchronisedExecutes`). A request that does not fit its container costs the next 63 as well,
  unless it had number 0 and the zeros sent in its place, or idle ones, pass for it before the next request arrives
  (`EmbeddedDelivery.OversizeStalls`).
- An acknowledged abort with fewer than four bytes of data stops the program, in the client connection and in the
  embedded client (`ClientSteps.StopsExactly`, `EmbeddedClients.StopsExactly`).
- A reset loads a stored value without looking at its type, so a wrongly typed one for 0x1F8C ends the state mirror
  (`NodeRuns.BootMirrors`). A received PDO that maps 0x1F8C or a record of 0x1003 overwrites it, read-only or not
  (`NodeRuns.MappedByteOverwrites`, `MappedRecordOverwrites`).
- A segmented read drops the data of the Initiate frame, which is where this crate's own server puts the first 1452
  bytes, and never compares the announced size with what it got (`ClientReads.InitiateDataIsLost`, `ReadDelivery`,
  `SizesAreIgnored`).
- A response of the embedded server goes out in one container only, and an idle container passes for the answer to a
  request with number 0, such as the lost first one (`EmbeddedAnswers.RespondedAtMostOnce`, `FreshPairIsAnswered`).
- Saving wraps the sub-index of an element to a byte, so lists of more than 256 elements are not saved faithfully
  (`Persistence.SavesFaithfullyExact`).
- A closed connection object keeps its pending command, and after a wrong server number also its job. Only the removal
  of closed connections by the manager keeps them out of later transfers (`ManagerRuns.ReusedWriteLeaks`,
  `ReusedConfigurationLeaks`, against `NoLeakage`).

## Model

| member | source | states |
|---|---|---|
| `ClientConnections.SdoClientConnection.HandleResponse` | crates/powerlink-rs/src/sdo/client_connection.rs:152-298 | Stale acknowledgements change nothing, a repeated server number only clears the outstanding frame, a wrong one closes, an abort closes and drops the job, anything else is processed by state; and the program stops at the slice of an abort code exactly where `Answered` has no outcome |
| `ClientConnections.SdoClientConnection.ProcessByState` | crates/powerlink-rs/src/sdo/client_connection.rs:218-297 | A new, well-numbered frame moves the state as in `Processed`: opening handshake, end of an entry, expedited and segmented uploads |
| `ClientConnections.SdoClientConnection.PrepareNextJobCommand` | crates/powerlink-rs/src/sdo/client_connection.rs:303-388 | Loads exactly the next entry of the stream as a write payload under the next non-zero transaction id, or drops the job when the count is used up or the stream is cut short |
| `ClientConnections.SdoClientConnection.ReadEntry` | crates/powerlink-rs/src/sdo/client_connection.rs:317-373 | Every slice stays inside the stream; the result is the entry at the offset |
| `ClientConnections.SdoClientConnection.Tick` | crates/powerlink-rs/src/sdo/client_connection.rs:390-418 | Before the deadline nothing; then the outstanding frame again while retries last, and at last one abort that closes |
| `ClientConnections.SdoClientConnection.GetPendingRequest` | crates/powerlink-rs/src/sdo/client_connection.rs:420-524 | New state and frame are those of `Polled`: nothing while a frame is outstanding, else the opening, segment, pending read or upload request, with timer, retry count and sequence number set |
| `ClientConnections.SdoClientConnection.GetNextDownloadSegment` | crates/powerlink-rs/src/sdo/client_connection.rs:526-570 | Cuts the next at most 1452 bytes off the buffer with the label and size that the source gives them |
| `ClientConnections.SdoClientConnection.Abort` | crates/powerlink-rs/src/sdo/client_connection.rs:121-150 | Closes, clears frame, timer and job but keeps a pending command; the abort frame carries the code and the current numbers |
| `ClientConnections.SdoClientConnection.StartConciseDcfJob` | crates/powerlink-rs/src/sdo/client_connection.rs:572-618 | Refused when busy or shorter than four bytes; else opens with the first entry loaded and the timer armed |
| `ClientConnections.SdoClientConnection.StartReadJob` | crates/powerlink-rs/src/sdo/client_connection.rs:620-655 | Refused when busy; else opens with the read request pending |
| `ClientConnections.SdoClientConnection.StartWriteJob` | crates/powerlink-rs/src/sdo/client_connection.rs:657-690 | Refused when busy; else opens with the write payload in the buffer |
| `ClientSteps.RespondedIsValid` | crates/powerlink-rs/src/sdo/client_connection.rs:152-298 | Responses keep the invariant of a connection (numbers below 64, a loaded buffer while downloading, a deadline for every outstanding frame) |
| `ClientSteps.TickedIsValid` | crates/powerlink-rs/src/sdo/client_connection.rs:390-418 | Timeouts keep that invariant |
| `ClientSteps.PolledIsValid` | crates/powerlink-rs/src/sdo/client_connection.rs:420-524 | Asking for a request keeps it |
| `ClientSteps.StartedIsValid` | crates/powerlink-rs/src/sdo/client_connection.rs:572-690 | Starting any transfer keeps it |
| `ClientSteps.RecursionIsOneDeep` | crates/powerlink-rs/src/sdo/client_connection.rs:472-481 | Loading an entry leaves a non-empty buffer, so asking for a request recurses at most once |
| `ClientSteps.StopsExactly` | crates/powerlink-rs/src/sdo/client_connection.rs:188-198 | A response stops the program if and only if it is an abort with fewer than four payload bytes that acknowledges the outstanding frame under the expected number; every other one has the outcome of `Responded` |
| `ClientSteps.ShortAbortStops` | crates/powerlink-rs/src/sdo/client_connection.rs:188-198 | Every read can be stopped that way in answer to its first frame |
| `ClientTimers.TimingFromObjects` | crates/powerlink-rs/src/sdo/client_connection.rs:429-430 | Timeout and retries are those of 0x1300 and 0x1302, or 15 seconds and 2 where there is no UNSIGNED32 |
| `ClientTimers.ResentExactlyAfterTimeout` | crates/powerlink-rs/src/sdo/client_connection.rs:390-524 | In every run, while a frame is outstanding, a timeout check hands something out if and only if the full timeout has passed since that frame was last sent; then it is the same frame while retries are left, and else the abort |
| `ClientTimers.AbortIsTimeout` | crates/powerlink-rs/src/sdo/client_connection.rs:121-150 | The abort after the last retry is four bytes with the timeout code, under the numbers and the transaction in use |
| `ClientTimers.OpeningAsks` | crates/powerlink-rs/src/sdo/client_connection.rs:432-449 | A started connection first sends a frame that asks for initialisation, without command or data |
| `ClientTimers.OpenedExactly` | crates/powerlink-rs/src/sdo/client_connection.rs:200-217 | A well-numbered answer opens it if and only if it initialises both directions; any other one closes it |
| `ClientTimers.DataFramesAskForAck` | crates/powerlink-rs/src/sdo/client_connection.rs:450-524 | Behind the opening every new frame belongs to a valid connection, asks to be acknowledged and carries the numbers of the connection |
| `ClientTimers.PendingUntilSent` | crates/powerlink-rs/src/sdo/client_connection.rs:121-524 | A pending read command goes only by being sent; aborts, wrong numbers and closing leave it |
| `ClientTimers.AbortsDropJobs` | crates/powerlink-rs/src/sdo/client_connection.rs:121-298 | The abort of either side drops the job, a wrong number closes the connection with its job as it was; no closed connection has a frame or a timer |
| `ClientTimers.RefusedExactly` | crates/powerlink-rs/src/sdo/client_connection.rs:572-690 | A start is refused if and only if the connection is busy, or a configuration is shorter than four bytes, each with its error; a refusal changes nothing |
| `ClientTimers.ClosedExactly` | crates/powerlink-rs/src/sdo/client_connection.rs:152-298 | A server frame closes a busy connection if and only if it acknowledges the outstanding frame, does not repeat the last number, and is wrongly numbered, an abort, or what ends the state that the connection is in |
| `ClientTimers.RequestNamesObject` | crates/powerlink-rs/src/sdo/client_connection.rs:620-655 | The request of a read, read by its format, names the object and sub-index that were asked for |
| `ConciseDcf.ParserInvertsEncoder` | crates/powerlink-rs/src/sdo/client_connection.rs:303-388 | Parsing a count and that many encoded entries, whatever follows them, gives exactly those entries back |
| `ConciseDcf.ParsedIsEncoded` | crates/powerlink-rs/src/sdo/client_connection.rs:317-373 | The bytes that one parse consumes are the encoding of the entry it returns |
| `ConciseDcf.ParserIsMaximal` | crates/powerlink-rs/src/sdo/client_connection.rs:317-373 | On arbitrary bytes the parser yields the longest list of at most count entries that is encoded in front: no further entry could be read after it |
| `ConciseDcf.PayloadReads` | crates/powerlink-rs/src/sdo/client_connection.rs:354-358 | A reader of write payloads written from their format (index, sub-index, a reserved zero, data) gives back the entry that a payload was made for |
| `WriteFrames.FramesCarryPayload` | crates/powerlink-rs/src/sdo/client_connection.rs:526-570 | The frames of a write put together are its payload, byte for byte |
| `WriteFrames.JobFramesCarryPayloads` | crates/powerlink-rs/src/sdo/client_connection.rs:303-388 | The frames of a job put together are the write payloads of its entries |
| `WriteFrames.WriteReads` | crates/powerlink-rs/src/sdo/client_connection.rs:526-570 | A receiver of the frames of a write that joins their data, checks each announced size and reads the buffer by its format gets the entry back |
| `WriteFrames.JobReads` | crates/powerlink-rs/src/sdo/client_connection.rs:303-388 | A receiver of the frames of a whole job that tells writes apart by their announced sizes gets all entries back, in order |
| `WriteFrames.FramesClosedForm` | crates/powerlink-rs/src/sdo/client_connection.rs:526-570 | A write of n bytes is ceil(n/1452) frames; the j-th is the j-th cut of 1452 bytes with its label, and the data size n - 4 is on the first only |
| `WriteFrames.LabelsExact` | crates/powerlink-rs/src/sdo/client_connection.rs:535-552 | The labels are Expedited alone, or Initiate, Segments, Complete, if and only if the size is outside 1453..1456; a write is an Expedited frame of 1452 bytes and a Complete one with the rest if and only if it is inside |
| `WriteFrames.JobFramesTids` | crates/powerlink-rs/src/sdo/client_connection.rs:375-378 | All frames of a job are WriteByIndex under non-zero transaction ids |
| `WriteFrames.TidsInTurn` | crates/powerlink-rs/src/sdo/client_connection.rs:375-378 | Transaction ids go round 1 to 255: the k-th id after t is not zero and is t + k modulo 255 |
| `ClientRuns.StepConserves` | crates/powerlink-rs/src/sdo/client_connection.rs:152-570 | Any timeout, request or response either sends exactly the head of what was left to send, or leaves it as it is, or gives up by closing; and a connection that closes as done has nothing left |
| `ClientRuns.RunConserves` | crates/powerlink-rs/src/sdo/client_connection.rs:152-570 | In every run the new write frames so far, followed by what is left, are what there was to send at the start; after closing they are a prefix of it |
| `ClientRuns.DcfDelivery` | crates/powerlink-rs/src/sdo/client_connection.rs:303-570 | Whatever happens during a configuration job, its new write frames are a prefix of the frames of the entries of the longest well-formed prefix of the stream; when it closes as done they are all of them, and their payloads are the write payloads of these entries |
| `ClientRuns.WriteDelivery` | crates/powerlink-rs/src/sdo/client_connection.rs:526-690 | The same for a single write |
| `ClientRuns.DcfReadsBack` | crates/powerlink-rs/src/sdo/client_connection.rs:303-570 | Whatever happens on the way, when a configuration job closes as done, a receiver that reads the delivered frames by their format has the entries of the longest well-formed prefix of the stream |
| `ClientRuns.FileArrives` | crates/powerlink-rs/src/sdo/client_connection.rs:303-570 | The entries of an encoded file, whatever follows it, are what the receiver has when its job closes as done |
| `ClientRuns.WriteReadsBack` | crates/powerlink-rs/src/sdo/client_connection.rs:526-690 | When a single write closes as done, the receiver has exactly the entry that was to be written: index, sub-index and data |
| `ClientRuns.CompletionMeansAll` | crates/powerlink-rs/src/sdo/client_connection.rs:218-233 | A run whose last step closes the connection as done has sent everything |
| `ClientRuns.LoadsOnlyAfterAck` | crates/powerlink-rs/src/sdo/client_connection.rs:218-233 | The next entry is loaded only on the acknowledgement of an outstanding frame when no byte of the current one is left |
| `ClientRuns.NoEmptyWrites` | crates/powerlink-rs/src/sdo/client_connection.rs:172-180 | Without duplicate server frames every write command carries data, so the delivered frames are all write commands of the run |
| `ClientRuns.RunStopsAndWaits` | crates/powerlink-rs/src/sdo/client_connection.rs:152-186 | In every reachable state at most one frame is unacknowledged, the k-th new frame and the k-th server frame taken carry k mod 64, and a frame is sent again at most as often as the retry count says |
| `ClientRuns.TickSends` | crates/powerlink-rs/src/sdo/client_connection.rs:390-418 | A timeout sends nothing, the identical outstanding frame, or one abort that closes |
| `ClientRuns.SilentServer` | crates/powerlink-rs/src/sdo/client_connection.rs:390-418 | Against a silent server the outstanding frame is sent exactly as often again as retries are left, and then one abort |
| `ClientRuns.SentHeadersEncode` | crates/powerlink-rs/src/sdo/client_connection.rs:518-523 | Every header that a run sends survives its encoding |
| `ClientReads.RunReads` | crates/powerlink-rs/src/sdo/client_connection.rs:152-524 | In every run of a read its state says which server frames it has taken: none, the opening, or the Initiate and Segment frames of an unfinished answer, with the data behind the Initiate frame in the buffer; and it sends only openings, its request and segment requests |
| `ClientReads.ReadDelivery` | crates/powerlink-rs/src/sdo/client_connection.rs:243-290 | When a server frame ends a read, in whatever run, the buffer holds all data of an expedited answer; of a segmented one it holds the data of the frames behind the Initiate frame, each once and in order, which is all of it if and only if the Initiate frame carries none |
| `ClientReads.InitiateDataIsLost` | crates/powerlink-rs/src/sdo/client_connection.rs:245-258 | A read answered by Initiate with the byte 7 and announced size 2, then Complete with the byte 8, closes with 8 alone |
| `ClientReads.SizesAreIgnored` | crates/powerlink-rs/src/sdo/client_connection.rs:245-291 | The announced size is never compared with what arrives: runs that differ in announced sizes only send the same and end with the same state and data |
| `ClientProgress.OneExchange` | crates/powerlink-rs/src/sdo/client_connection.rs:152-570 | Against a server that answers, one request and answer delivers exactly the next frame; the last one closes |
| `ClientProgress.AnsweredDownloadCompletes` | crates/powerlink-rs/src/sdo/client_connection.rs:152-570 | A started download opens with one exchange, then delivers all its frames, one per exchange, and closes |
| `ClientProgress.HangsForever` | crates/powerlink-rs/src/sdo/client_connection.rs:172-180 | A connection that waits for a read with nothing outstanding is never changed again by anything |
| `ClientProgress.HangsExactly` | crates/powerlink-rs/src/sdo/client_connection.rs:172-180 | A waiting read comes to hang if and only if the frame that acknowledges its request repeats the last server number |
| `ClientProgress.StuckExactly` | crates/powerlink-rs/src/sdo/client_connection.rs:420-524 | A busy connection with nothing outstanding does nothing when asked for a request if and only if it hangs |
| `ClientProgress.EveryReadCanHang` | crates/powerlink-rs/src/sdo/client_connection.rs:172-180 | Every read has a run of four steps into the hang |
| `ClientManagers.SdoClientManager.GetNextTid` | crates/powerlink-rs/src/sdo/client_manager.rs:28-34 | The next transaction id, never 0 |
| `ClientManagers.SdoClientManager.NextActionTime` | crates/powerlink-rs/src/sdo/client_manager.rs:36-41 | None if no connection has a deadline, else a deadline of some connection that no other undercuts |
| `ClientManagers.SdoClientManager.StartConfigurationDownload` | crates/powerlink-rs/src/sdo/client_manager.rs:44-57 | The node's connection, new if there was none, is started with the next transaction id; all others are as before |
| `ClientManagers.SdoClientManager.ReadObjectByIndex` | crates/powerlink-rs/src/sdo/client_manager.rs:59-73 | The same for a read |
| `ClientManagers.SdoClientManager.WriteObjectByIndex` | crates/powerlink-rs/src/sdo/client_manager.rs:75-90 | The same for a write |
| `ClientManagers.SdoClientManager.HandleResponse` | crates/powerlink-rs/src/sdo/client_manager.rs:92-99 | Only the source's connection takes the response, and it is removed if that closes it; the program stops if and only if that connection does |
| `ClientManagers.SdoClientManager.Tick` | crates/powerlink-rs/src/sdo/client_manager.rs:101-122 | Nodes are served in ascending order up to the first with a frame; closed connections are then removed |
| `ClientManagers.SdoClientManager.GetPendingRequest` | crates/powerlink-rs/src/sdo/client_manager.rs:124-145 | The same for new requests |
| `ManagerRuns.ServeExact` | crates/powerlink-rs/src/sdo/client_manager.rs:107-116 | Said without the loop: the frame comes from the lowest node that has one, nodes below it made their silent step, nodes above it are untouched |
| `ManagerRuns.TickActsExactly` | crates/powerlink-rs/src/sdo/client_manager.rs:36-122 | A timeout check changes or sends something if and only if some deadline has passed, so sleeping until the earliest one misses nothing |
| `ManagerRuns.ActsKeepTidy` | crates/powerlink-rs/src/sdo/client_manager.rs:44-145 | After every operation no connection in the map is closed, each is under its own node, idle ones are as good as new, and each other one is where a run of its own transfer from a never-used connection leads, having sent exactly the frames of that run |
| `ManagerRuns.NoLeakage` | crates/powerlink-rs/src/sdo/client_manager.rs:44-145 | For every sequence of operations on any nodes: the frames handed out for a node since its last accepted request are those of a run of that request alone; their writes are a prefix of its frames, and all of them when the connection is about to close as done |
| `ManagerRuns.DeliveredByManager` | crates/powerlink-rs/src/sdo/client_manager.rs:44-145 | When the connection of a node is about to close as done, a receiver has from the frames since the last accepted request for that node exactly the entries of that request |
| `ManagerRuns.ManagerNumbersFrames` | crates/powerlink-rs/src/sdo/client_manager.rs:124-145 | The k-th frame handed out for a transfer carries k mod 64, however many nodes are served at the same time |
| `ManagerRuns.HungNodeIsLost` | crates/powerlink-rs/src/sdo/client_connection.rs:172-180 | Once a node's connection hangs, nothing the manager does ever changes it, hands out a frame for it or accepts a request for it |
| `ManagerRuns.ManagerCanHang` | crates/powerlink-rs/src/sdo/client_manager.rs:59-145 | A fresh manager asked for one read is brought there by four more events |
| `ManagerRuns.ReusedWriteLeaks` | crates/powerlink-rs/src/sdo/client_connection.rs:121-150 | Without the pruning it would fail: a write started on a closed connection object sends exactly its own frames if and only if no entries of an earlier job are left on it |
| `ManagerRuns.ReusedConfigurationLeaks` | crates/powerlink-rs/src/sdo/client_connection.rs:432-482 | Likewise a configuration started there first sends its first entry, and if none can be read from its data, whatever was still pending: so an earlier read is sent if and only if there is one and no entry can be read |
| `SdoCommands.SerializeHeader` | crates/powerlink-rs/src/sdo/sequence.rs:78-91 | Writes the four header bytes in front of the caller's buffer and nothing else, or nothing if it is too short |
| `SdoCommands.HeaderRoundTrip` | crates/powerlink-rs/src/sdo/sequence.rs:78-109 | A header survives its encoding, whatever follows, if and only if both numbers are below 64 |
| `WireLayouts.SequenceBytes` | crates/powerlink-rs/src/sdo/sequence.rs:78-109 | The four bytes of a sequence header: number times four plus state, for each direction, and two zeros |
| `WireLayouts.EmbeddedBytes` | crates/powerlink-rs/src/sdo/embedded.rs:92-126 | Where each field of an embedded command stands, byte by byte and flag by flag |
| `WireLayouts.CommandBytes` | crates/powerlink-rs/src/sdo/command/base.rs:11-66 | The code of each command, and that no other byte decodes to a command |
| `WireLayouts.RequestBytes` | crates/powerlink-rs/src/sdo/embedded_client.rs:149-193 | What a client container decodes to: the command, index, sub-index and data of the front request, under the next number |
| `WireLayouts.NumbersAreLittleEndian` | crates/powerlink-rs/src/od/value.rs:42-86 | Integers are serialised to their width, least significant byte first, negative ones as two's complement |
| `WireLayouts.TimesAreTwoNumbers` | crates/powerlink-rs/src/od/value.rs:42-86 | The two numbers of a time, one behind the other |
| `WireLayouts.UnitsInPairs` | crates/powerlink-rs/src/od/value.rs:42-86 | Each unit of a Unicode string stands in its two bytes |
| `MultiReads.BuildResponse` | crates/powerlink-rs/src/sdo/handlers.rs:405-442 | The loops build count, blocks and padding, or abort with the code of the first item that cannot be read |
| `MultiReads.BlockRoundTrip` | crates/powerlink-rs/src/sdo/handlers.rs:417-428 | A block reads back as its data if and only if the data has fewer than 65536 bytes |
| `MultiReads.ResponseRoundTrip` | crates/powerlink-rs/src/sdo/handlers.rs:405-442 | A parser written from the format alone reads the response to readable items back as exactly their serialised values, in request order, if and only if each has fewer than 65536 bytes |
| `MultiReads.ItemsRoundTrip` | crates/powerlink-rs/src/sdo/command/base.rs:346-364 | The items written into a request payload are the items parsed from it, whatever the reserved bytes are |
| `MultiReads.HandleReadMultiple` | crates/powerlink-rs/src/sdo/handlers.rs:398-477 | A payload that is no list of items gets its abort code, any other the response to its items |
| `MultiReads.RequestRoundTrip` | crates/powerlink-rs/src/sdo/handlers.rs:398-442 | The round trip from request payload to response payload, under the same condition |
| `MultiReads.MalformedAborts` | crates/powerlink-rs/src/sdo/handlers.rs:472-476 | The abort code 0x05040001 is the answer if and only if the payload is not a multiple of four bytes long |
| `MultiReads.ResponseHoldsValue` | crates/powerlink-rs/src/sdo/handlers.rs:405-442 | The value read back at position k is the one the dictionary holds for item k |
| `MultiReads.ResponseAligned` | crates/powerlink-rs/src/sdo/handlers.rs:424-427 | Every response is a multiple of four bytes long |
| `MultiReads.ConcatAligned` | crates/powerlink-rs/src/sdo/handlers.rs:424-427 | So is every list of blocks, so each entry starts on a four-byte boundary |
| `MultiReads.ResponseAborts` | crates/powerlink-rs/src/sdo/handlers.rs:429-440 | The response is an abort without data if and only if some item cannot be read; the code is that of the first such item, 0x06020000 for a missing object and 0x06090011 for a missing sub-index |
| `EmbeddedCodec.CodecRoundTrip` | crates/powerlink-rs/src/sdo/embedded.rs:57-126 | A command survives encoding and any padding, its length field filled in, if and only if its number has six bits, its connection state two and its data at most 255 bytes |
| `EmbeddedCodec.TruncationExact` | crates/powerlink-rs/src/sdo/embedded.rs:57-97 | A cut-off encoding decodes if and only if what the length byte announces is still there |
| `EmbeddedCodec.TruncatedIsRejected` | crates/powerlink-rs/src/sdo/embedded.rs:57-97 | Every proper truncation is rejected if and only if there are at most 255 data bytes |
| `EmbeddedCodec.CutOrPadded` | crates/powerlink-rs/src/sdo/embedded.rs:57-126 | What a container of any length makes of an encoded command: the command with its data cut to the length byte, or an error |
| `EmbeddedServers.EmbeddedSdoServer.HandleRequest` | crates/powerlink-rs/src/sdo/embedded_server.rs:40-87 | Executes the request only if it decodes and carries the number after the last one; then the channel holds its number and response, and other channels are untouched |
| `EmbeddedServers.EmbeddedSdoServer.ProcessCommand` | crates/powerlink-rs/src/sdo/embedded_server.rs:90-178 | Response and dictionary are those of `Outcome`: reads, type-checked writes and the abort code of each failure |
| `EmbeddedServers.EmbeddedSdoServer.GetPendingResponse` | crates/powerlink-rs/src/sdo/embedded_server.rs:182-208 | The waiting response once, cut or padded to the container, else zeros |
| `EmbeddedServers.CommandsKeepShape` | crates/powerlink-rs/src/sdo/embedded_server.rs:90-178 | An aborted command changes nothing; every command keeps indices, lengths and value types |
| `EmbeddedServers.WriteThenRead` | crates/powerlink-rs/src/sdo/embedded_server.rs:90-178 | A successful write to a location reads back as the bytes written, their first bytes for fixed-size types, and changes that location only |
| `EmbeddedServers.CountWriteThenRead` | crates/powerlink-rs/src/od/mod.rs:374-384 | The exception: writing the count of a PDO mapping stores nothing, and the count read back is the one written if and only if it is the number of elements |
| `EmbeddedServers.ResponseOnTheWire` | crates/powerlink-rs/src/sdo/embedded_server.rs:182-208 | The outgoing container decodes to the response with its data cut to the length byte, or is rejected when too short for that; the data survives if and only if it has at most 255 bytes and fits |
| `EmbeddedOutcomes.ReadableExactly` | crates/powerlink-rs/src/od/mod.rs:93-118 | A variable is readable under 0, a list under 1 up to its length, and its length up to 254 under 0 |
| `EmbeddedOutcomes.ReadAnswered` | crates/powerlink-rs/src/sdo/embedded_server.rs:95-110 | A read is answered without abort if and only if the location is readable, and then with its serialised value; else the decoded answer is an abort with 0x06020000 for a missing object and 0x06090011 for a missing sub-index. Nothing changes |
| `EmbeddedOutcomes.OthersAborted` | crates/powerlink-rs/src/sdo/embedded_server.rs:150-178 | Any other command than a read or write by index is answered by an abort with 0x05040001 |
| `EmbeddedOutcomes.WriteAnswered` | crates/powerlink-rs/src/sdo/embedded_server.rs:111-178 | A write is answered without abort if and only if none of eleven causes applies, from a missing object over wrong data, signature or storage and an invalid mapping count to an access right; each cause has its own code, spelled out, in the decoded answer, and a refused write changes nothing |
| `EmbeddedOutcomes.PlainWriteAccepted` | crates/powerlink-rs/src/sdo/embedded_server.rs:111-139 | Away from command objects and mapping counts that means: the location exists, the bytes decode to its type and the dictionary accepts the value |
| `EmbeddedOutcomes.CommandNeedsText` | crates/powerlink-rs/src/sdo/embedded_server.rs:111-139 | Where a command object holds no text, no write over this server saves or restores anything |
| `EmbeddedOutcomes.BootedCommandsFail` | crates/powerlink-rs/src/od/predefined.rs:23-57 | The command objects that a boot adds hold numbers, so every write to them over this server is aborted |
| `EmbeddedServers.WriteThenReadOnTheWire` | crates/powerlink-rs/src/sdo/embedded_server.rs:40-208 | A write and a read under the next two numbers: the container that answers the read decodes to the bytes written, their first bytes for fixed-size types, or is rejected when too short |
| `EmbeddedClients.EmbeddedSdoClient.QueueRead` | crates/powerlink-rs/src/sdo/embedded_client.rs:47-70 | Appends a read to the channel's queue, or refuses a channel outside 0x1280..0x12FF |
| `EmbeddedClients.EmbeddedSdoClient.QueueWrite` | crates/powerlink-rs/src/sdo/embedded_client.rs:73-97 | The same for a write |
| `EmbeddedClients.QueuedInOrder` | crates/powerlink-rs/src/sdo/embedded_client.rs:47-98 | Requests wait in the order in which they came and touch no other channel and no number |
| `EmbeddedClients.EmbeddedSdoClient.HandleResponse` | crates/powerlink-rs/src/sdo/embedded_client.rs:100-145 | Notes the number of a response to the latest request and nothing else, and says whether the program stops at too short an abort |
| `EmbeddedClients.StopsExactly` | crates/powerlink-rs/src/sdo/embedded_client.rs:130-137 | The program stops at the slice of the abort code if and only if an abort that answers the latest request has fewer than four data bytes |
| `EmbeddedClients.ShortAbortStops` | crates/powerlink-rs/src/sdo/embedded_client.rs:130-137 | Such an answer, padded in any way, exists for every state of the client |
| `EmbeddedClients.EmbeddedSdoClient.GetPendingRequest` | crates/powerlink-rs/src/sdo/embedded_client.rs:149-193 | The front request padded to the container, or zeros; its number is used up even when it does not fit |
| `EmbeddedChannel.ClientNumbersRequests` | crates/powerlink-rs/src/sdo/embedded_client.rs:149-193 | In every run of a client the containers are made for the requests in order; each decodes to its request under the next number, or holds zeros when the request does not fit or there is none |
| `EmbeddedChannel.ExecutedAtMostOnce` | crates/powerlink-rs/src/sdo/embedded_server.rs:61-86 | Over any channel that keeps the order, each container is executed at most once and in order |
| `EmbeddedChannel.RequestsExecutedInOrder` | crates/powerlink-rs/src/sdo/embedded_server.rs:61-86 | So the numbers of the executed requests of any client strictly increase, whatever is lost, repeated or idle |
| `EmbeddedDelivery.IdleExecutes` | crates/powerlink-rs/src/sdo/embedded_server.rs:61-86 | A container of zeros is executed if and only if it has at least eight bytes and the server waits for number 0 |
| `EmbeddedDelivery.RepeatsDoNotMatter` | crates/powerlink-rs/src/sdo/embedded_server.rs:62-64 | Receiving containers again, in order, ends in the same state as receiving each of them once |
| `EmbeddedDelivery.ExecutedAreDue` | crates/powerlink-rs/src/sdo/embedded_server.rs:61-86 | In every run of a client against any server, over a lossless channel, a container is executed if and only if the lag, counted from the containers before it, says so |
| `EmbeddedDelivery.RequestsExecutedExactlyOnce` | crates/powerlink-rs/src/sdo/embedded_server.rs:61-86 | With any idle containers and from any numbers of the two sides, when all requests fit: each container is executed at most once, and request k is executed if and only if k is not before the first awaited one and has not lost number 0 to an idle container sent between it and request k - 1 |
| `EmbeddedDelivery.SynchronisedExecutes` | crates/powerlink-rs/src/sdo/embedded_server.rs:61-86 | From a synchronised pair request k is executed if and only if it is not swallowed that way; so after such a loss the pair is in step again |
| `EmbeddedDelivery.EveryRequestExecuted` | crates/powerlink-rs/src/sdo/embedded_client.rs:149-193 | A synchronised pair executes every request if and only if all of them fit their containers and none is swallowed |
| `EmbeddedDelivery.FreshPairLosesFirst` | crates/powerlink-rs/src/sdo/embedded_server.rs:62-64 | A fresh pair, both sides at 0, never executes request 0 and executes the others if and only if they are not swallowed |
| `EmbeddedDelivery.OversizeStalls` | crates/powerlink-rs/src/sdo/embedded_client.rs:155-188 | After a first request that does not fit, the next 63 are all ignored, unless the server waits for number 0 and receives zeros of at least eight bytes before request 1, which is then executed |
| `EmbeddedDelivery.IdleContainerSwallowsRequest` | crates/powerlink-rs/src/sdo/embedded_server.rs:61-86 | An idle container makes the server drop the request that it waits for if and only if that has number 0 and the container has at least eight bytes |
| `EmbeddedDelivery.DictionaryAfterRun` | crates/powerlink-rs/src/sdo/embedded_server.rs:61-178 | After a run over a lossless channel the dictionary is what performing the executed requests in turn makes of it, each with its data cut to the length byte |
| `EmbeddedAnswers.TakenAsAnswer` | crates/powerlink-rs/src/sdo/embedded_client.rs:100-145 | In every run of both sides, whatever is lost, repeated or reordered: a container sent back is taken as the answer if and only if it is not cut short and responds to the latest request or one a multiple of 64 before it, or the latest request has number 0 and it responds to zeros or is idle with at least eight bytes |
| `EmbeddedAnswers.IdleAnswers` | crates/powerlink-rs/src/sdo/embedded_client.rs:118-126 | A container of zeros is taken as the answer if and only if it has at least eight bytes and the latest request has number 0 |
| `EmbeddedAnswers.FreshPairIsAnswered` | crates/powerlink-rs/src/sdo/embedded_client.rs:118-126 | The first request of a fresh pair is not executed, and any idle container of at least eight bytes passes for its answer |
| `EmbeddedAnswers.RespondedAtMostOnce` | crates/powerlink-rs/src/sdo/embedded_server.rs:182-208 | When the client's containers keep their order, each execution is responded to in at most one container, in order; no repeated request brings a response back |
| `ObjectValues.RoundTrip` | crates/powerlink-rs/src/od/value.rs:42-191 | Decoding what was encoded gives the value back for every type; bytes after a fixed-size value are ignored |
| `ObjectValues.DeserializeExact` | crates/powerlink-rs/src/od/value.rs:88-191 | Decoding succeeds exactly on long enough, well-formed bytes; the result has the template's type and encodes to the bytes it was read from |
| `Utf8.ValidExactly` | crates/powerlink-rs/src/od/value.rs:119-125 | A text decodes if and only if its bytes are the shortest UTF-8 form of some Unicode scalar values |
| `Entries.WriteExact` | crates/powerlink-rs/src/od/mod.rs:334-413 | A write succeeds if and only if index, access right, location and type allow it; it then changes that one location, else nothing, and never the shape |
| `Entries.RefusedExactly` | crates/powerlink-rs/src/od/mod.rs:334-416 | Which error a refused write gives, error by error |
| `Entries.ReadByLocations` | crates/powerlink-rs/src/od/mod.rs:93-117 | Reading depends only on the readable locations and the shape |
| `ObjectDictionaries.ObjectDictionary.WriteInternal` | crates/powerlink-rs/src/od/mod.rs:334-413 | Result and dictionary are those of `WriteOutcome` and `Written` |
| `ObjectDictionaries.ObjectDictionary.Write` | crates/powerlink-rs/src/od/mod.rs:167-226 | The storage commands, mapping validation on a mapping count, else the access-checked write |
| `ObjectDictionaries.ObjectDictionary.StoreParameters` | crates/powerlink-rs/src/od/commands.rs:8-64 | The loop collects the storable values of the group, whatever the order of the walk, and saves them, or reports why not |
| `ObjectDictionaries.ObjectDictionary.RestoreDefaults` | crates/powerlink-rs/src/od/commands.rs:67-89 | Sets the restore request and nothing else |
| `ObjectDictionaries.ObjectDictionary.RestorePowerOnValues` | crates/powerlink-rs/src/od/mod.rs:249-300 | The loop is one pointwise map: stored, else default, else present value inside the range, 0x1003 excepted |
| `ObjectDictionaries.ObjectDictionary.PopulateProtocolObjects` | crates/powerlink-rs/src/od/predefined.rs:12-208 | Adds each missing protocol object and alters none |
| `ObjectDictionaries.ObjectDictionary.ApplyStored` | crates/powerlink-rs/src/od/storage.rs:42-58 | Writing the stored parameters in any order is one overlay of the values whose types fit |
| `ObjectDictionaries.ObjectDictionary.Init` | crates/powerlink-rs/src/od/storage.rs:14-62 | Layered boot: protocol objects, then the pending restore or the stored parameters, each failure leaving what was done before it |
| `ObjectDictionaries.ObjectDictionary.WriteErrorToHistory` | crates/powerlink-rs/src/od/error_history.rs:14-37 | The record goes to the front, and the last element goes when there are more than 254 |
| `DictionaryRuns.LastWriteWins` | crates/powerlink-rs/src/od/mod.rs:167-226 | After any public writes each location holds the value of the last request that the access rights and types of the initial dictionary let through, else its initial value: the nested dictionary is a flat map of typed locations |
| `DictionaryRuns.WriteTakesEffect` | crates/powerlink-rs/src/od/mod.rs:167-226 | One public write changes a location exactly when it names it and is let through |
| `Persistence.SavedElement` | crates/powerlink-rs/src/od/commands.rs:35-50 | What a save holds for an element of a list of any length: the last element whose sub-index wraps to the same byte |
| `Persistence.SavesFaithfullyExact` | crates/powerlink-rs/src/od/commands.rs:35-50 | Saving keeps every readable element if and only if the list has at most 256 elements |
| `Persistence.OverlayExact` | crates/powerlink-rs/src/od/storage.rs:42-58 | The overlay gives each location its stored value if there is one of its type, and keeps the shape |
| `Persistence.OverlayOneMore` | crates/powerlink-rs/src/od/storage.rs:42-58 | One more internal write of a stored parameter is the overlay of one more parameter, in whatever order they come |
| `Persistence.MissingIsInserted` | crates/powerlink-rs/src/od/predefined.rs:12-208 | An entry of the table that the dictionary does not have is inserted as it stands |
| `Persistence.TimingObjects` | crates/powerlink-rs/src/od/predefined.rs:59-86 | Without firmware entries the SDO timeout is 15000 and the retry count 2 |
| `Persistence.NodeListObjects` | crates/powerlink-rs/src/od/predefined.rs:167-193 | Without firmware entries the two node lists are 32 bytes of zeros |
| `Persistence.StateObject` | crates/powerlink-rs/src/od/predefined.rs:195-208 | Without a firmware entry the state object is a read-only UNSIGNED8 |
| `Persistence.CommandObjects` | crates/powerlink-rs/src/od/predefined.rs:23-57 | Without firmware entries the two command objects are records of three UNSIGNED32 |
| `Persistence.ChannelObjects` | crates/powerlink-rs/src/od/predefined.rs:105-165 | Without firmware entries channel 0 receives from the managing node and sends as node 1, both with version 0 and nothing mapped |
| `Boots.SaveThenBoot` | crates/powerlink-rs/src/od/storage.rs:14-62 | Save, any public writes that are no storage commands, then a boot of any firmware with the same kinds of objects: storable locations of the group that the firmware has with the same type have the value of the moment of saving, all others their firmware or protocol value |
| `Boots.SavedLocation` | crates/powerlink-rs/src/od/commands.rs:8-57 | A save holds exactly the readable locations whose access type is one of the two storing ones and whose index is in the list: all for 1, 0x1000 to 0x1FFF for 2, 0x6000 to 0x9FFF for 3, none for others; each with its value |
| `Boots.RestoreThenBoot` | crates/powerlink-rs/src/od/commands.rs:67-89 | A restore request followed by a healthy boot gives the pure defaults and clears parameters and request |
| `Boots.DefaultsAfterRequest` | crates/powerlink-rs/src/od/storage.rs:18-40 | Once requested, every later boot comes up with the pure defaults, however often the backend fails and whatever is written between the boots, saves included, until something is saved after the backend was cleared; the request goes only together with the parameters |
| `Boots.FailedClearIsRetried` | crates/powerlink-rs/src/od/storage.rs:18-40 | A failed clear is reported and loses neither the request nor the parameters |
| `Boots.BackendAfterBoot` | crates/powerlink-rs/src/od/storage.rs:14-62 | What one boot leaves in the backend and reports, whatever fails: parameters go exactly with a requested clear that succeeds, the request only when its own clearing does too |
| `PdoMapping.MappingRoundTrip` | crates/powerlink-rs/src/pdo/mapping.rs:67-84 | Decoding inverts encoding; encoding gives a stored value back if and only if its reserved byte is 0 |
| `PdoMapping.FieldsInBytes` | crates/powerlink-rs/src/pdo/mapping.rs:67-84 | Index, sub-index, offset and length stand in bytes 0-1, 2, 4-5 and 6-7 of the stored value |
| `PdoMapping.LimitFromObjects` | crates/powerlink-rs/src/od/pdo_validator.rs:32-39 | The limit is 0x1F98 sub 1 for sent PDOs and sub 2 for received ones, or 1490 without an UNSIGNED16 there |
| `PdoMapping.ValidatePdoMapping` | crates/powerlink-rs/src/od/pdo_validator.rs:8-84 | The loop computes `Validation`: the limit of the direction, missing or mistyped entries, and overruns |
| `PdoMapping.ValidationExact` | crates/powerlink-rs/src/od/pdo_validator.rs:32-83 | A non-empty mapping is accepted if and only if the first n elements are all mapping entries that end within the limit |
| `PdoMapping.ValidatedNeverRunsShort` | crates/powerlink-rs/src/node/pdo_handler.rs:201-224 | With all stored entries validated, no byte-aligned entry ends behind a payload of at least the limit |
| `PdoMapping.CountConditionIsExact` | crates/powerlink-rs/src/od/mod.rs:374-384 | Validating a count n bounds every mapping of c entries if and only if n >= c, since the node applies all stored entries |
| `PdoHandlers.PdoNode.ConsumePdoPayload` | crates/powerlink-rs/src/node/pdo_handler.rs:67-191 | First matching channel, version check, mapping collected before it is applied, then entry by entry: the node state is that of `Consumption` |
| `PdoHandlers.PdoNode.ApplyRpdoMappingEntry` | crates/powerlink-rs/src/node/pdo_handler.rs:195-325 | One entry: skipped when unaligned, short payload noted, SDO containers handed to server or client, else decoded and written |
| `PdoHandlers.PdoNode.UpdatePdoErrorObject` | crates/powerlink-rs/src/node/pdo_handler.rs:18-63 | Sets the node's bit in the node list, if there is one |
| `PdoHandlers.PdoNode.FindChannel` | crates/powerlink-rs/src/node/pdo_handler.rs:80-111 | The first of the 256 channels set up for the source node |
| `PdoHandlers.PdoNode.CollectEntries` | crates/powerlink-rs/src/node/pdo_handler.rs:140-175 | The mapping entries among the sub-indices up to the stored count, in order |
| `PdoHandlers.FirstChannelExact` | crates/powerlink-rs/src/node/pdo_handler.rs:80-111 | It matches, and none before it does; or none matches |
| `PdoReception.ChannelIsFirst` | crates/powerlink-rs/src/node/pdo_handler.rs:80-111 | The channel taken is the first that is set up for the node, by its number or by 0 for the managing node |
| `PdoReception.AppliedIffCompatible` | crates/powerlink-rs/src/node/pdo_handler.rs:67-191 | A ready PDO on the channel of its node is applied if and only if the expected and received version are both 0, or the expected one is not, the main numbers are equal and the received sub number is no smaller; otherwise exactly one wrong version is reported, exactly the bit of the node is set in 0x1C80, and nothing else changes |
| `PdoReception.IgnoredWithoutChannel` | crates/powerlink-rs/src/node/pdo_handler.rs:67-111 | A PDO that is not ready, or for whose node no channel is set up, changes nothing |
| `PdoReception.EntriesOfArray` | crates/powerlink-rs/src/node/pdo_handler.rs:140-175 | The entries applied are those of all elements of the mapping, in order |
| `PdoReception.EntrySkipped` | crates/powerlink-rs/src/node/pdo_handler.rs:195-280 | An entry that is no whole bytes, or names an unknown client channel or no readable place, is skipped |
| `PdoReception.EntryForChannel` | crates/powerlink-rs/src/node/pdo_handler.rs:226-262 | An entry of an SDO channel hands its bytes to that channel alone, and only an abort that stops the program ends the PDO |
| `PdoReception.EntryOverruns` | crates/powerlink-rs/src/node/pdo_handler.rs:208-224 | An entry that overruns the payload ends the PDO with one report and the bit of the node set in 0x1C81 |
| `PdoReception.EntryUndecodable` | crates/powerlink-rs/src/node/pdo_handler.rs:312-322 | An entry whose bytes do not decode ends the PDO with one report, but the node is not noted |
| `PdoHandlers.UnpackInvertsPlace` | crates/powerlink-rs/src/node/pdo_handler.rs:195-325 | If the payload holds the serialised values where distinct mapped locations point, every mapped location then reads its value and nothing else of the node changes |
| `PdoHandlers.OverrunStops` | crates/powerlink-rs/src/node/pdo_handler.rs:208-224 | At the first entry that overruns the payload exactly the earlier ones are applied, one short payload is reported and the node noted in 0x1C81 |
| `PdoHandlers.ConsumptionUnpacks` | crates/powerlink-rs/src/node/pdo_handler.rs:67-191 | The same for a whole received PDO with matching channel and version |
| `PdoHandlers.ConsumptionOverruns` | crates/powerlink-rs/src/node/pdo_handler.rs:67-191 | A whole received PDO whose mapping overruns the payload: exactly the entries in front are applied, one short payload is reported and the node noted |
| `PdoHandlers.AppliedHalts` | crates/powerlink-rs/src/node/pdo_handler.rs:226-250 | An entry stops the program if and only if it hands a client container with too short an abort for the latest request to a known channel |
| `PdoHandlers.ValidatedChannelNeverOverruns` | crates/powerlink-rs/src/node/pdo_handler.rs:201-224 | With the whole mapping of a channel validated, none of the applied entries overruns a payload of at least the limit |
| `PdoHandlers.NotedExact` | crates/powerlink-rs/src/node/pdo_handler.rs:18-63 | In a list of any length that reaches the node, noting it sets exactly its bit and changes nothing else in the dictionary |
| `NmtMachines.NmtStateMachine.ResetCascade` | crates/powerlink-rs/src/nmt/state_machine.rs:46-121 | The cascade of reset states, with a state write at each and the ranges restored in turn, is the one pointwise map `ResetResult` and ends in NotActive |
| `NmtMachines.NmtStateMachine.ProcessEvent` | crates/powerlink-rs/src/nmt/cn_state_machine.rs:85-198 | Next state, dictionary and unexpected-event report of either kind of node |
| `NmtMachines.NmtStateMachine.RunInternalInitialisation` | crates/powerlink-rs/src/nmt/state_machine.rs:125-132 | A software reset from GsInitialising, nothing otherwise |
| `NmtMachines.ResetPointwise` | crates/powerlink-rs/src/nmt/state_machine.rs:46-121 | What each index holds after a reset, for any types of stored and default values: power-on value on the covered indices, NotActive in 0x1F8C, all else unchanged |
| `PowerOns.RangeValues` | crates/powerlink-rs/src/od/mod.rs:249-300 | Restoring a range gives each location in it, the error history excepted, its stored parameter if there is one; else the default, which an element takes only if the types agree; else its old value. The rest stays |
| `PowerOns.ResetValues` | crates/powerlink-rs/src/nmt/state_machine.rs:46-121 | After a reset every covered location holds that value and every other one its old value; only an UNSIGNED8 variable at 0x1F8C holds the code of NotActive |
| `PowerOns.StepValues` | crates/powerlink-rs/src/nmt/state_machine.rs:46-121 | In a running node the stored parameters are those of the storage if it can be read, and none otherwise |
| `PowerOns.DefaultIsRestored` | crates/powerlink-rs/src/od/mod.rs:278-284 | A variable with a default and nothing stored has its default after a reset of the node |
| `NmtMachines.ResetsAbsorb` | crates/powerlink-rs/src/nmt/state_machine.rs:46-121 | A reset after one that covers no more is that reset alone; so a second one changes nothing |
| `NmtMachines.FullResetsAgree` | crates/powerlink-rs/src/nmt/state_machine.rs:46-121 | ResetNode, SwReset and the internal reset have the same result |
| `NmtMachines.CascadeCovers` | crates/powerlink-rs/src/nmt/state_machine.rs:60-110 | The ranges restored one after the other are the covered indices |
| `NmtMachines.CnBootsInOrder` | crates/powerlink-rs/src/nmt/cn_state_machine.rs:85-198 | A controlled node in Operational took CnConfigurationComplete in PreOperational2, waited, then took StartNode, in every run |
| `NmtMachines.MnBootsInOrder` | crates/powerlink-rs/src/nmt/mn_state_machine.rs:97-184 | A managing node in Operational took AllCnsIdentified, ConfigurationCompleteCnsReady and AllMandatoryCnsOperational in that order since PreOperational1 |
| `NmtRuns.StateExactly` | crates/powerlink-rs/src/nmt/cn_state_machine.rs:85-198 | In every run, for every state of either kind of node: it is there at the end if and only if an event has led there from another state, or it began there, and no event has led away since. What leads there and away is spelled out state by state, such as StopNode from the three running states into CsStopped, and only EnterPreOperational2, Error or a reset out of it |
| `NmtRuns.StepBySides` | crates/powerlink-rs/src/nmt/mn_state_machine.rs:97-184 | The same for one event, with bit 13 of the start-up flags deciding between BasicEthernet and PreOperational1 |
| `NmtRuns.StoppedUntilReleased` | crates/powerlink-rs/src/nmt/cn_state_machine.rs:144-170 | A controlled node is stopped if and only if StopNode met it running and it has not been released, failed or reset since |
| `NmtRuns.UnexpectedExactly` | crates/powerlink-rs/src/nmt/cn_state_machine.rs:118-181 | A controlled node reports an event as unexpected if and only if it is no reset, leads to no other state, and is not the permission to become ready in PreOperational2 |
| `NmtRuns.CodesTellStatesApart` | crates/powerlink-rs/src/nmt/states.rs:18-50 | The codes differ, and their low half tells common, inactive, cyclic and Ethernet states apart |
| `NodeRuns.StateIsMirrored` | crates/powerlink-rs/src/nmt/state_machine.rs:30-42 | From the first state entered on, under NMT events, public writes, storage commands, logged errors and received PDOs, 0x1F8C reads as the current state if and only if no PDO has put another byte there since the state was last entered |
| `NodeRuns.ReceiveOnState` | crates/powerlink-rs/src/node/pdo_handler.rs:67-325 | A received PDO leaves the state object alone, or leaves in it the last byte of an applied entry that maps it |
| `NodeRuns.MappedByteOverwrites` | crates/powerlink-rs/src/node/pdo_handler.rs:282-310 | An entry that maps 0x1F8C puts any byte there, 0xAB for one, which is no state |
| `NodeRuns.BootedNodeIsSound` | crates/powerlink-rs/src/od/storage.rs:14-62 | Firmware without its own 0x1F8C boots into what that needs if and only if no stored value of another type is left for it |
| `NodeRuns.BootMirrors` | crates/powerlink-rs/src/nmt/state_machine.rs:30-132 | After boot and software reset, in every run of these operations, only a byte received for 0x1F8C keeps it from mirroring the state, if and only if the boot left no stored value of another type for it |
| `NodeRuns.HistoryIsNewestFirst` | crates/powerlink-rs/src/od/error_history.rs:14-37 | The history is the newest 254 records, newest first, across all resets, and all writes and received PDOs that go to other objects |
| `NodeRuns.NothingToLogTo` | crates/powerlink-rs/src/od/error_history.rs:14-37 | Without an array at 0x1003 an error is logged nowhere |
| `NodeRuns.MappedRecordOverwrites` | crates/powerlink-rs/src/node/pdo_handler.rs:282-310 | An entry that maps the newest record of the history replaces it by the payload |
| `DllCycle.CycleStateMachine.ProcessEvent` | crates/powerlink-rs/src/frame/cs_state_machine.rs:52-176 | State and reported errors are those of the transition table, first matching row first |
| `DllCycle.ErrorFreeLanguage` | crates/powerlink-rs/src/frame/cs_state_machine.rs:52-176 | A run from NonCyclic that moves in any way between the cyclic NMT states reports nothing if and only if its events are a prefix of a word of (Soc Pres* Preq Pres* Soa Asnd*)* |
| `DllCycle.ReportsExactly` | crates/powerlink-rs/src/frame/cs_state_machine.rs:68-164 | Which error an event is a report of, error by error: a SoC is lost, a SoA is lost, a poll request is lost, or the event is unexpected; never more than the two losses together |
| `DllCycle.ReportsCounted` | crates/powerlink-rs/src/frame/cs_state_machine.rs:52-176 | In every run each error is reported exactly as often as an event of its kind occurs |
| `DllCycle.StateExactly` | crates/powerlink-rs/src/frame/cs_state_machine.rs:52-176 | In every run through cyclic states the state of the machine is told by the events since the last SoC |
| `DllCycle.AnyCyclicState` | crates/powerlink-rs/src/frame/cs_state_machine.rs:62-66 | Inside the cyclic NMT states a run does not depend on which of them the node is in |
| `DllCycle.CycleAccounting` | crates/powerlink-rs/src/frame/cs_state_machine.rs:68-164 | In every run through any NMT states: SoCs and stray ASnds equal closing SoAs, reported losses of SoA, cycles given up on leaving the cyclic states, and the open one |
| `DllCycle.CycleAccountingCyclic` | crates/powerlink-rs/src/frame/cs_state_machine.rs:68-164 | The same inside the cyclic states, where no cycle is given up |
| `DllCycle.Resynchronises` | crates/powerlink-rs/src/frame/cs_state_machine.rs:52-176 | Whatever happened before in any NMT states, a SoC puts the machine back in step: the rest of its cycle and any whole cycles after it are taken without a report while the node stays in the cyclic states |

## Left out

- The HALs for Linux and Windows, sockets, the web monitor, examples, logging and the crate `powerlink-rs-xdc`: I/O, user interface and record conversion.
- The asynchronous SDO server behind `sdo/sequence_handler.rs`: its responses are arbitrary here, so the theorems hold against any server; only its multi-read response is modelled.
- Frame bodies and the byte form of the command layer (`sdo/command/base.rs`): `SdoCommand` is a plain record.
- `frame/ms_state_machine.rs`, the main loops and schedulers of both kinds of node, and the conversions of `NodeId` and of NMT commands: single-branch facts.
- Names, categories, value ranges and mapping hints of dictionary entries, `find_by_name`, `increment_counter`, `validate_mandatory_objects` and `get_configured_cns`: they do not affect values or their types.
- ObjectDictionaries.ObjectDictionary.constructor: the storage backend is a value inside the dictionary, which borrows it exclusively in the source; which of its calls succeed is a fixed `Health` per boot or operation, not a choice per call.
- ObjectDictionaries.ObjectDictionary.WriteErrorToHistory: the bytes of a record are a parameter, since their layout only concatenates the fields of an error entry.
- Error messages: an error is a case of `Error`, with a storage fault named where the source gives a text.
- ObjectValues.RoundTrip: Real32 and Real64 are their bit patterns; arithmetic on them does not occur.
- Time as u64: deadlines are unbounded, so their overflow is not modelled; likewise offsets and sizes do not wrap at the width of `usize`.
- ClientRuns.RunConserves: a run goes on after a response that stops the program, as if it were any other abort, and so do runs of a node (`NodeRuns`) after such a PDO; what is proved of all runs holds of those that end there too.
- EmbeddedClients.EmbeddedSdoClient.HandleResponse: what a response means for the application is only logged by the source.
- ClientSteps.StartedIsValid: that a node number is valid is checked before it reaches the connection, so a node is any byte here.
- PdoHandlers.PdoNode.ConsumePdoPayload: reports to the DLL error manager are recorded as a sequence; its counters and thresholds are not part of this model.
- PdoHandlers.PdoNode.ApplyRpdoMappingEntry: the second comparison of types after decoding is dropped, because decoding always yields the template's type (`ObjectValues.DeserializeExact`).
- NmtMachines.NmtStateMachine.ProcessEvent: the two machines are one class with a role, whose transition tables are those of `nmt/cn_state_machine.rs` and `nmt/mn_state_machine.rs`; the error handler's reaction to an unexpected event is not modelled.
- MultiReads.ResponseRoundTrip: how the finished response is then sent, expedited or in segments, belongs to the asynchronous server.
