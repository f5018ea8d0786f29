/**
 * The clock of a client connection, its opening and its ends: when a frame is sent again, what opens a
 * connection, and exactly what closes it
 * (crates/powerlink-rs/src/sdo/client_connection.rs; EPSG DS 301, section 6.3.2).
 */
module ClientTimers {
  import opened Wrappers
  import opened Bytes
  import opened Entries
  import opened SdoCommands
  import opened ConciseDcf
  import opened ClientSteps
  import opened ClientRuns

  // ---- Timeouts ----

  /** Time-out and retries come from 0x1300 and 0x1302; without an UNSIGNED32 there they are 15 seconds and 2. */
  lemma {:induction false} TimingFromObjects(d: Dictionary)
    ensures TimingOf(d).timeoutMs ==
            match Read(d, 0x1300, 0) case Some(Unsigned32(v)) => v case _ => 15000
    ensures TimingOf(d).retries ==
            match Read(d, 0x1302, 0) case Some(Unsigned32(v)) => v case _ => 2
  {}

  /** A frame handed out: at which time, and how many microseconds may pass until it is sent again. */
  datatype Sending = Sending(at: nat, wait: nat)

  /** What a step hands out, aborts excepted. */
  function SendingOf(c: Conn, op: Op): Option<Sending>
    requires Valid(c)
  {
    match op
    case Tick(now, t) =>
      if Step(c, op).1.Some? && !Step(c, op).0.state.Closed? then Some(Sending(now, 1000 * t.timeoutMs)) else None
    case Poll(now, t) => if Step(c, op).1.Some? then Some(Sending(now, 1000 * t.timeoutMs)) else None
    case Response(_, _) => None
  }

  /** The last sending of a run. */
  function LastSending(c: Conn, ops: seq<Op>): Option<Sending>
    requires Valid(c)
  {
    if ops == [] then None
    else
      var sending := SendingOf(Run(Start(c), ops[..|ops| - 1]).conn, ops[|ops| - 1]);
      if sending.Some? then sending else LastSending(c, ops[..|ops| - 1])
  }

  /** The timer of an outstanding frame runs out when its last sending has waited long enough. */
  predicate TimerRuns(c: Conn, last: Option<Sending>) {
    c.last.Some? ==> last.Some? && c.deadline == Some(last.value.at + last.value.wait)
  }

  lemma {:induction false} StepKeepsTimer(c: Conn, op: Op, last: Option<Sending>)
    requires Valid(c) && TimerRuns(c, last)
    ensures TimerRuns(Step(c, op).0, if SendingOf(c, op).Some? then SendingOf(c, op) else last)
  {
    match op {
      case Tick(now, t) => TickSends(c, now, t);
      case Poll(now, t) => PollKeepsTimer(c, now, t, last);
      case Response(h, cmd) => ResponseNumbers(c, h, cmd);
    }
  }

  lemma {:induction false} PollKeepsTimer(c: Conn, now: nat, t: Timing, last: Option<Sending>)
    requires Valid(c) && TimerRuns(c, last)
    ensures TimerRuns(Polled(c, now, t).0, if Polled(c, now, t).1.Some?
                      then Some(Sending(now, 1000 * t.timeoutMs)) else last)
  {
    if c.last.None? && c.state.Established? && c.buffer == [] && c.pending.None? && Prepared(c).1 {
      RecursionIsOneDeep(c, now, t);
    }
  }

  lemma {:induction false} RunKeepsTimer(c: Conn, ops: seq<Op>)
    requires Valid(c) && c.last.None?
    ensures TimerRuns(Run(Start(c), ops).conn, LastSending(c, ops))
  {
    if ops != [] {
      var before := Run(Start(c), ops[..|ops| - 1]);
      RunKeepsTimer(c, ops[..|ops| - 1]);
      StepKeepsTimer(before.conn, ops[|ops| - 1], LastSending(c, ops[..|ops| - 1]));
      AdvanceConn(before, ops[|ops| - 1]);
    }
  }

  /**
   * In every run, while a frame is outstanding, a timeout check hands something out if and only if the full
   * timeout has passed since the frame was sent last; then it is the same frame while retries are left, and else an
   * abort that closes the connection.
   */
  lemma {:induction false} ResentExactlyAfterTimeout(c: Conn, ops: seq<Op>, now: nat, t: Timing)
    requires Valid(c) && c.last.None? && Run(Start(c), ops).conn.last.Some?
    ensures LastSending(c, ops).Some?
    ensures var conn, last := Run(Start(c), ops).conn, LastSending(c, ops).value;
            var (conn', out) := Step(conn, Tick(now, t));
            && (out.Some? <==> last.at + last.wait <= now)
            && (out.Some? && conn.retriesLeft > 0 ==> out == conn.last && conn'.retriesLeft == conn.retriesLeft - 1)
            && (out.Some? && conn.retriesLeft == 0 ==> IsTimeoutAbort(conn, out.value) && conn'.state.Closed?)
  {
    RunKeepsTimer(c, ops);
    AbortIsTimeout(Run(Start(c), ops).conn);
  }

  /** The abort for a server that has not answered in time: four bytes with the code, under the numbers in use. */
  predicate IsTimeoutAbort(c: Conn, f: Frame) {
    && f.cmd.header.isAborted && !f.cmd.header.isResponse && f.cmd.header.transactionId == c.tid
    && f.cmd.header.segmentSize == |f.cmd.payload| == 4 && FromLe(f.cmd.payload) == 0x0504_0000
    && f.seqHeader.ssnr == c.ssn && f.seqHeader.rsnr == c.rsn && f.seqHeader.scon.SNoConnection?
  }

  lemma {:induction false} AbortIsTimeout(c: Conn)
    ensures IsTimeoutAbort(c, AbortFrame(c, 0x0504_0000))
  {
    assert Span(4) == 0x1_0000_0000 by { SpanValues(); }
    FromLeOfLe(0x0504_0000, 4);
  }

  // ---- Opening ----

  /** A started connection asks for initialisation, without data and under the numbers in use. */
  lemma {:induction false} OpeningAsks(c: Conn, now: nat, t: Timing)
    requires Valid(c) && c.state.Opening? && c.last.None?
    ensures var (c', out) := Step(c, Poll(now, t));
            && out.Some? && c'.state.Opening? && c'.last == out
            && out.value.seqHeader.scon.SInitialization? && out.value.seqHeader.rcon.RNoConnection?
            && out.value.seqHeader.ssnr == c.ssn && out.value.seqHeader.rsnr == c.rsn
            && out.value.cmd.payload == [] && out.value.cmd.header.transactionId == c.tid
            && out.value.cmd.header.commandId.Nil?
  {}

  /** An acknowledged, well-numbered answer opens it exactly when it initialises both directions, and else closes it. */
  lemma {:induction false} OpenedExactly(c: Conn, h: SequenceHeader, cmd: SdoCommand)
    requires Valid(c) && c.state.Opening? && Acknowledges(c, h) && h.ssnr == ExpectedSsnr(c) && !cmd.header.isAborted
    ensures var c' := Step(c, Response(h, cmd)).0;
            if h.rcon.RInitialization? && h.scon.SInitialization? then c'.state.Established? else c'.state.Closed?
  {}

  /** Behind the opening every new frame is of a valid connection, asks to be acknowledged and carries its numbers. */
  lemma {:induction false} DataFramesAskForAck(c: Conn, now: nat, t: Timing)
    requires Valid(c) && !c.state.Opening?
    ensures var out := Step(c, Poll(now, t)).1;
            out.Some? ==>
              out.value.seqHeader == SequenceHeader(c.rsn, RConnectionValid, c.ssn, SConnectionValidAckRequest)
  {
    if c.last.None? && c.state.Established? && c.buffer == [] && c.pending.None? && Prepared(c).1 {
      RecursionIsOneDeep(c, now, t);
    }
  }

  /** A pending read command outlives everything but its own sending: aborts, wrong numbers and closing as well. */
  lemma {:induction false} PendingUntilSent(c: Conn, op: Op)
    requires Valid(c) && c.pending.Some?
    ensures var (c', out) := Step(c, op);
            || c'.pending == c.pending
            || (c'.pending.None? && op.Poll? && out.Some? && out.value.cmd == c.pending.value && c'.state.UploadInit?)
  {
    match op {
      case Tick(now, t) =>
      case Poll(now, t) =>
      case Response(h, cmd) => ResponseNumbers(c, h, cmd);
    }
  }

  // ---- Closing ----

  /** What a well-numbered answer that is no abort has to be to close the connection, state by state. */
  predicate EndsState(c: Conn, h: SequenceHeader, cmd: SdoCommand) {
    match c.state
    case Opening => !(h.rcon.RInitialization? && h.scon.SInitialization?)
    case DownloadInProgress => c.offset >= c.total && JobEntries(c.job) == []
    case UploadInit => !cmd.header.segmentation.Initiate?
    case UploadInProgress => !cmd.header.segmentation.Segment?
    case _ => true
  }

  /**
   * A server frame closes a busy connection if and only if it acknowledges the outstanding frame, does not repeat
   * the last number, and has a wrong number, is an abort, or ends what the connection is at.
   */
  lemma {:induction false} ClosedExactly(c: Conn, h: SequenceHeader, cmd: SdoCommand)
    requires Valid(c) && !IsIdle(c)
    ensures Step(c, Response(h, cmd)).0.state.Closed? <==>
              && Acknowledges(c, h) && h.ssnr != c.rsn
              && (h.ssnr != ExpectedSsnr(c) || cmd.header.isAborted || EndsState(c, h, cmd))
  {
    if c.state.DownloadInProgress? { PreparedKeepsTodo(Taken(c, h)); LastEntry(c); }
  }

  /**
   * A job is dropped by the abort of either side, but a wrong number closes the connection with its job
   * as it was.
   */
  lemma {:induction false} AbortsDropJobs(c: Conn, h: SequenceHeader, cmd: SdoCommand, now: nat, t: Timing)
    requires Valid(c) && !IsIdle(c)
    ensures var c' := Step(c, Tick(now, t)).0; c'.state.Closed? ==> c'.job.None? && c'.last.None? && c'.deadline.None?
    ensures var c' := Step(c, Response(h, cmd)).0;
            c'.state.Closed? ==>
              c'.last.None? && c'.deadline.None?
              && c'.job == if h.ssnr != ExpectedSsnr(c) then c.job
                           else if cmd.header.isAborted || c.state.DownloadInProgress? then None else c.job
  {
    TickSends(c, now, t);
  }

  /** What a start refuses, and that a refusal changes nothing. */
  lemma {:induction false} RefusedExactly(c: Conn, data: seq<u8>, e: Entry, tid: u8, now: nat, t: Timing)
    ensures var (c', r) := DcfStarted(c, data, tid, now, t);
            && (r == Err(ClientBusy) <==> !c.state.Idle? && !c.state.Closed?)
            && (r == Err(ValidationError) <==> (c.state.Idle? || c.state.Closed?) && |data| < 4)
            && (r.Err? ==> c' == c && (r == Err(ClientBusy) || r == Err(ValidationError)))
    ensures var (c', r) := ReadStarted(c, e.index, e.sub, tid, now, t);
            && (r.Err? <==> !c.state.Idle? && !c.state.Closed?) && (r.Err? ==> c' == c && r == Err(ClientBusy))
    ensures var (c', r) := WriteStarted(c, e, tid, now, t);
            && (r.Err? <==> !c.state.Idle? && !c.state.Closed?) && (r.Err? ==> c' == c && r == Err(ClientBusy))
  {}

  lemma {:induction false} LastEntry(c: Conn)
    ensures Prepared(c).1 <==> JobEntries(c.job) != []
  {}

  // ---- Reading ----

  /** What the payload of a read request names, from its format. */
  function NamedBy(p: seq<u8>): Option<(u16, u8)> {
    match ReadPayload(p)
    case Some(e) => if e.data == [] then Some((e.index, e.sub)) else None
    case None => None
  }

  /** The request that a read sends names the object and sub-index that were asked for. */
  lemma {:induction false} RequestNamesObject(target: u8, index: u16, sub: u8, tid: u8, now: nat, t: Timing)
    ensures var c := ReadStarted(NewConn(target), index, sub, tid, now, t).0;
            && c.pending.Some? && NamedBy(c.pending.value.payload) == Some((index, sub))
            && c.pending.value.header.commandId.ReadByIndex? && c.pending.value.header.transactionId == tid
            && c.pending.value.header.segmentation.Expedited? && c.pending.value.header.segmentSize == 4
  {
    PayloadReads(Entry(index, sub, []));
    assert Le(index, 2) + [sub, 0] == WritePayload(Entry(index, sub, []));
  }
}
