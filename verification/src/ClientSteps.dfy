/**
 * One SDO client connection as a value, and what each of its operations does
 * (crates/powerlink-rs/src/sdo/client_connection.rs; EPSG DS 301, section 6.3.2).
 */
module ClientSteps {
  import opened Wrappers
  import opened Bytes
  import opened Entries
  import opened SdoCommands
  import opened ConciseDcf

  const MAX_CLIENT_PAYLOAD: nat := 1452

  datatype ConnState =
    | Idle
    | Opening
    | Established
    | UploadInit
    | UploadInProgress
    | DownloadInProgress
    | Closed

  datatype Job = DcfJob(data: seq<u8>, position: nat, remaining: u32)

  datatype Conn = Conn(
    target: u8,
    state: ConnState,
    tid: u8,
    ssn: u8,
    rsn: u8,
    buffer: seq<u8>,
    offset: nat,
    total: nat,
    deadline: Option<nat>,
    retriesLeft: u32,
    last: Option<Frame>,
    job: Option<Job>,
    pending: Option<SdoCommand>)

  /** The SDO timeout and retry count from 0x1300 and 0x1302, with their fallbacks. */
  datatype Timing = Timing(timeoutMs: u32, retries: u32)

  function TimingOf(d: Dictionary): Timing {
    Timing(GetOr(ReadU32(d, 0x1300, 0), 15000), GetOr(ReadU32(d, 0x1302, 0), 2))
  }

  function NewConn(target: u8): Conn {
    Conn(target, Idle, 0, 0, 63, [], 0, 0, None, 0, None, None, None)
  }

  predicate IsIdle(c: Conn) { c.state.Idle? || c.state.Closed? }

  function DefaultHeader(tid: u8): CommandHeader { CommandHeader(tid, false, false, Expedited, Nil, 0) }

  /** The header of every data frame. */
  function DataHeader(c: Conn): SequenceHeader {
    SequenceHeader(c.rsn, RConnectionValid, c.ssn, SConnectionValidAckRequest)
  }

  // ---- Abort ----

  function AbortFrame(c: Conn, code: u32): Frame {
    Frame(
      SequenceHeader(c.rsn, RConnectionValid, c.ssn, SNoConnection),
      SdoCommand(CommandHeader(c.tid, false, true, Expedited, Nil, 4), None, Le(code, 4)))
  }

  /** An abort closes and drops the job, but keeps a pending command. */
  function Aborted(c: Conn): Conn {
    c.(state := Closed, last := None, deadline := None, job := None)
  }

  // ---- Jobs ----

  function NextTid(tid: u8): u8 { if tid == 255 then 1 else tid + 1 }

  /** Loads the next entry of the job into the buffer; the job is dropped when there is none. */
  function Prepared(c: Conn): (Conn, bool) {
    match c.job
    case None => (c, false)
    case Some(DcfJob(data, position, remaining)) =>
      if remaining == 0 then (c.(job := None), false)
      else
        match ParseEntry(data, position)
        case None => (c.(job := None), false)
        case Some((e, next)) =>
          (c.(buffer := WritePayload(e), total := |WritePayload(e)|, offset := 0,
              job := Some(DcfJob(data, next, remaining - 1)), tid := NextTid(c.tid)), true)
  }

  // ---- Segments ----

  /** The frame that carries the bytes of a write from an offset on. */
  function ChunkLength(total: nat, offset: nat): nat
    requires offset <= total
  {
    Min(MAX_CLIENT_PAYLOAD, total - offset)
  }

  function SegmentLabel(total: nat, offset: nat): Segmentation
    requires offset <= total
  {
    if offset == 0 then if total <= MAX_CLIENT_PAYLOAD + 4 then Expedited else Initiate
    else if total - offset <= MAX_CLIENT_PAYLOAD then Complete
    else Segment
  }

  function WriteCommand(buffer: seq<u8>, offset: nat, tid: u8): SdoCommand
    requires offset <= |buffer| && 4 <= |buffer|
  {
    var n := ChunkLength(|buffer|, offset);
    SdoCommand(
      CommandHeader(tid, false, false, SegmentLabel(|buffer|, offset), WriteByIndex, n),
      if offset == 0 then Some((|buffer| - 4) % 0x1_0000_0000) else None,
      buffer[offset..offset + n])
  }

  // ---- Responses from the server ----

  predicate Acknowledges(c: Conn, h: SequenceHeader) { c.last.Some? && h.rsnr == c.last.value.seqHeader.ssnr }

  function ExpectedSsnr(c: Conn): u8 { (c.rsn + 1) % 64 }

  /** What the state makes of a new, well-numbered frame that is no abort. */
  function Processed(c: Conn, h: SequenceHeader, cmd: SdoCommand): Conn {
    match c.state
    case Opening =>
      c.(state := if h.rcon == RInitialization && h.scon == SInitialization then Established else Closed)
    case DownloadInProgress =>
      if c.offset >= c.total then
        var (c', ready) := Prepared(c);
        c'.(state := if ready then Established else Closed)
      else c
    case UploadInit =>
      (match cmd.header.segmentation
       case Expedited => c.(buffer := cmd.payload, state := Closed)
       case Initiate => c.(total := GetOr(cmd.dataSize, c.total), buffer := [], state := UploadInProgress)
       case _ => c.(state := Closed))
    case UploadInProgress =>
      (match cmd.header.segmentation
       case Segment => c.(buffer := c.buffer + cmd.payload)
       case Complete => c.(buffer := c.buffer + cmd.payload, state := Closed)
       case _ => c.(state := Closed))
    case _ => c.(state := Closed)
  }

  function Responded(c: Conn, h: SequenceHeader, cmd: SdoCommand): Conn {
    if !Acknowledges(c, h) then c
    else
      var acked := c.(last := None, deadline := None, retriesLeft := 0);
      if h.ssnr == c.rsn then acked
      else if h.ssnr != ExpectedSsnr(c) then acked.(state := Closed)
      else
        var taken := acked.(rsn := h.ssnr);
        if cmd.header.isAborted then taken.(state := Closed, job := None)
        else Processed(taken, h, cmd)
  }

  /** The connection after an acknowledged frame with the right number, before it is acted on. */
  function Taken(c: Conn, h: SequenceHeader): Conn {
    c.(last := None, deadline := None, retriesLeft := 0, rsn := h.ssnr)
  }

  /**
   * As Responded, but None where the source stops: it slices four bytes off the payload of an
   * abort without looking at its length.
   */
  function Answered(c: Conn, h: SequenceHeader, cmd: SdoCommand): Option<Conn> {
    if Acknowledges(c, h) && h.ssnr != c.rsn && h.ssnr == ExpectedSsnr(c) && cmd.header.isAborted
       && Slice(cmd.payload, 0, 4).None? then None
    else Some(Responded(c, h, cmd))
  }

  // ---- Timeouts ----

  predicate Expired(c: Conn, now: nat) { c.deadline.Some? && c.deadline.value <= now }

  function Ticked(c: Conn, now: nat, t: Timing): (Conn, Option<Frame>) {
    if !Expired(c, now) then (c, None)
    else if c.retriesLeft > 0 then
      (c.(retriesLeft := c.retriesLeft - 1, deadline := Some(now + t.timeoutMs * 1000)), c.last)
    else (Aborted(c), Some(AbortFrame(c, 0x0504_0000)))
  }

  // ---- New requests ----

  /** Sends a frame: it is outstanding from now on. */
  function Sent(c: Conn, f: Frame, now: nat, t: Timing): (Conn, Option<Frame>) {
    (c.(deadline := Some(now + t.timeoutMs * 1000), retriesLeft := t.retries, last := Some(f), ssn := (c.ssn + 1) % 64),
     Some(f))
  }

  /** The buffer of a download is a whole write payload, sent up to the offset. */
  predicate Loaded(c: Conn) { c.total == |c.buffer| && 4 <= c.total && c.offset <= c.total }

  /** The states in which the buffer is a download. */
  predicate Downloads(c: Conn) {
    c.state.DownloadInProgress? || ((c.state.Opening? || c.state.Established?) && c.buffer != [])
  }

  function Polled(c: Conn, now: nat, t: Timing): (Conn, Option<Frame>)
    requires Downloads(c) ==> Loaded(c)
    decreases c.buffer == []
  {
    if c.last.Some? then (c, None)
    else
      match c.state
      case Opening =>
        Sent(c, Frame(SequenceHeader(c.rsn, RNoConnection, c.ssn, SInitialization),
                      SdoCommand(DefaultHeader(c.tid), None, [])), now, t)
      case Established =>
        if c.buffer != [] then SentSegment(c, now, t)
        else if c.pending.Some? then
          Sent(c.(state := UploadInit, pending := None), Frame(DataHeader(c), c.pending.value), now, t)
        else
          var (c', ready) := Prepared(c);
          if ready then Polled(c', now, t) else (c'.(state := Closed), None)
      case DownloadInProgress => SentSegment(c, now, t)
      case UploadInProgress =>
        var cmd := SdoCommand(CommandHeader(c.tid, false, false, Segment, ReadByIndex, 0), None, []);
        Sent(c, Frame(DataHeader(c), cmd), now, t)
      case _ => (c, None)
  }

  function SentSegment(c: Conn, now: nat, t: Timing): (Conn, Option<Frame>)
    requires Loaded(c)
  {
    var f := Frame(DataHeader(c), WriteCommand(c.buffer, c.offset, c.tid));
    Sent(c.(state := DownloadInProgress, offset := c.offset + ChunkLength(c.total, c.offset)), f, now, t)
  }

  // ---- Starting a transfer ----

  function Started(c: Conn, tid: u8, now: nat, t: Timing): Conn {
    c.(state := Opening, tid := tid, ssn := 0, rsn := 63, buffer := [],
       deadline := Some(now + t.timeoutMs * 1000), retriesLeft := t.retries)
  }

  function DcfStarted(c: Conn, data: seq<u8>, tid: u8, now: nat, t: Timing): (Conn, Result<(), Error>) {
    if !IsIdle(c) then (c, Err(ClientBusy))
    else if |data| < 4 then (c, Err(ValidationError))
    else
      var job := DcfJob(data, 4, EntryCount(data));
      (Prepared(Started(c, tid, now, t).(job := Some(job))).0, Ok(()))
  }

  function ReadStarted(c: Conn, index: u16, sub: u8, tid: u8, now: nat, t: Timing): (Conn, Result<(), Error>) {
    if !IsIdle(c) then (c, Err(ClientBusy))
    else
      var cmd := SdoCommand(CommandHeader(tid, false, false, Expedited, ReadByIndex, 4), None, Le(index, 2) + [sub, 0]);
      (Started(c, tid, now, t).(pending := Some(cmd)), Ok(()))
  }

  function WriteStarted(c: Conn, e: Entry, tid: u8, now: nat, t: Timing): (Conn, Result<(), Error>) {
    if !IsIdle(c) then (c, Err(ClientBusy))
    else
      (Started(c, tid, now, t).(buffer := WritePayload(e), total := |WritePayload(e)|, offset := 0), Ok(()))
  }

  // ---- Invariant ----

  /** What holds in every reachable state. */
  predicate Valid(c: Conn) {
    && c.ssn < 64 && c.rsn < 64
    && (Downloads(c) ==> Loaded(c))
    && (c.state.DownloadInProgress? ==> c.offset > 0)
    && ((c.state.Opening? || c.state.Established?) && c.buffer != [] ==> c.offset == 0)
    && (c.last.Some? ==> c.deadline.Some? && (c.last.value.seqHeader.ssnr + 1) % 64 == c.ssn
                         && c.last.value.seqHeader.ssnr < 64 && c.last.value.seqHeader.rsnr < 64)
    && (c.state.Idle? || c.state.Closed? || c.state.Established? ==> c.last.None? && c.deadline.None?)
    && (c.deadline.Some? && c.last.None? ==> c.state.Opening?)
  }

  lemma NewIsValid(target: u8)
    ensures Valid(NewConn(target))
  {}

  lemma PreparedIsValid(c: Conn)
    requires c.ssn < 64 && c.rsn < 64 && c.last.None? && (c.deadline.Some? ==> c.state.Opening?)
    ensures var (c', ready) := Prepared(c);
            && c' == c.(buffer := c'.buffer, total := c'.total, offset := c'.offset, job := c'.job, tid := c'.tid)
            && (ready ==> c'.buffer != [] && Loaded(c') && c'.offset == 0)
            && (!ready ==> c' == c.(job := None))
  {}

  /** Loading an entry has nothing to do with the timer. */
  lemma PreparedIgnoresTimer(c: Conn, deadline: Option<nat>, retries: u32)
    ensures Prepared(c.(deadline := deadline, retriesLeft := retries))
         == (Prepared(c).0.(deadline := deadline, retriesLeft := retries), Prepared(c).1)
  {}

  /** A connection with a new job, before its timer is set. */
  function Opened(c: Conn, data: seq<u8>, tid: u8): Conn
    requires |data| >= 4
  {
    c.(state := Opening, tid := tid, ssn := 0, rsn := 63, buffer := [], job := Some(DcfJob(data, 4, EntryCount(data))))
  }

  /** Starting a job may load the first entry before or after it sets the timer. */
  lemma DcfStartedInSteps(c: Conn, data: seq<u8>, tid: u8, now: nat, t: Timing)
    requires IsIdle(c) && |data| >= 4
    ensures DcfStarted(c, data, tid, now, t)
         == (Prepared(Opened(c, data, tid)).0.(deadline := Some(now + t.timeoutMs * 1000), retriesLeft := t.retries),
             Ok(()))
  {
    PreparedIgnoresTimer(Opened(c, data, tid), Some(now + t.timeoutMs * 1000), t.retries);
  }

  lemma RespondedIsValid(c: Conn, h: SequenceHeader, cmd: SdoCommand)
    requires Valid(c)
    ensures Valid(Responded(c, h, cmd))
  {}

  /** The responses that stop a node: acknowledged, well-numbered aborts with fewer than four payload bytes. */
  lemma StopsExactly(c: Conn, h: SequenceHeader, cmd: SdoCommand)
    requires Valid(c)
    ensures Answered(c, h, cmd).None? <==>
              && Acknowledges(c, h) && h.ssnr == ExpectedSsnr(c)
              && cmd.header.isAborted && |cmd.payload| < 4
    ensures Answered(c, h, cmd).Some? ==> Answered(c, h, cmd).value == Responded(c, h, cmd)
  {}

  /** Any started read can be stopped that way in answer to its first frame. */
  lemma ShortAbortStops(target: u8, index: u16, sub: u8, tid: u8, now: nat, t: Timing)
    ensures var c := Polled(ReadStarted(NewConn(target), index, sub, tid, now, t).0, now, t).0;
            var abort := SdoCommand(CommandHeader(tid, true, true, Expedited, Nil, 0), None, []);
            Answered(c, SequenceHeader(0, RConnectionValid, 0, SConnectionValid), abort) == None
  {}

  lemma TickedIsValid(c: Conn, now: nat, t: Timing)
    requires Valid(c)
    ensures Valid(Ticked(c, now, t).0)
  {}

  lemma PolledIsValid(c: Conn, now: nat, t: Timing)
    requires Valid(c)
    ensures Valid(Polled(c, now, t).0)
    decreases c.buffer == []
  {
    if c.last.None? && c.state.Established? && c.buffer == [] && c.pending.None? && Prepared(c).1 {
      PolledIsValid(Prepared(c).0, now, t);
    }
  }

  lemma StartedIsValid(c: Conn, data: seq<u8>, e: Entry, tid: u8, now: nat, t: Timing)
    requires Valid(c)
    ensures Valid(DcfStarted(c, data, tid, now, t).0)
    ensures Valid(ReadStarted(c, e.index, e.sub, tid, now, t).0)
    ensures Valid(WriteStarted(c, e, tid, now, t).0)
  {
  }

  /** Loading an entry leaves a non-empty buffer, so asking for a request recurses at most once. */
  lemma RecursionIsOneDeep(c: Conn, now: nat, t: Timing)
    requires Valid(c) && c.last.None? && c.state.Established? && c.buffer == [] && c.pending.None? && Prepared(c).1
    ensures Polled(c, now, t) == SentSegment(Prepared(c).0, now, t)
  {}
}
