/** Whole runs of a client connection: conservation of the frames to send, stop-and-wait, delivery. */
module ClientRuns {
  import opened Wrappers
  import opened Bytes
  import opened SdoCommands
  import opened ConciseDcf
  import opened ClientSteps
  import opened WriteFrames

  /**
   * Anything that can happen to a connection once a transfer has been started. A response that
   * stops the source (Answered) is answered here like any other abort, so what holds of all runs holds of
   * the shorter ones that end there.
   */
  datatype Op =
    | Tick(now: nat, timing: Timing)
    | Poll(now: nat, timing: Timing)
    | Response(header: SequenceHeader, cmd: SdoCommand)

  function Step(c: Conn, op: Op): (r: (Conn, Option<Frame>))
    requires Valid(c)
    ensures Valid(r.0)
  {
    match op
    case Tick(now, t) => TickedIsValid(c, now, t); Ticked(c, now, t)
    case Poll(now, t) => PolledIsValid(c, now, t); Polled(c, now, t)
    case Response(h, cmd) => RespondedIsValid(c, h, cmd); (Responded(c, h, cmd), None)
  }

  // ---- What is left to send ----

  /** A connection either reads or writes: a pending read excludes a job and buffered data. */
  predicate Sane(c: Conn) {
    c.pending.Some? ==>
      && c.pending.value.header.commandId.ReadByIndex?
      && c.job.None?
      && ((c.state.Opening? || c.state.Established?) ==> c.buffer == [])
  }

  function JobEntries(job: Option<Job>): seq<Entry> {
    match job
    case None => []
    case Some(DcfJob(data, position, remaining)) => ParseAll(data, position, remaining)
  }

  /** All WriteByIndex frames that a connection still has to send. */
  function Todo(c: Conn): seq<SdoCommand>
    requires Valid(c)
  {
    if c.state.Opening? || c.state.Established? || c.state.DownloadInProgress? then
      (if Downloads(c) then FramesFrom(c.buffer, c.offset, c.tid) else []) + JobFrames(JobEntries(c.job), c.tid)
    else []
  }

  /** The data-carrying write commands among new frames. */
  function Writes(f: Option<Frame>): seq<SdoCommand> {
    if f.Some? && f.value.cmd.header.commandId.WriteByIndex? && f.value.cmd.payload != [] then [f.value.cmd] else []
  }

  /** New write frames of a step; what a timeout sends again is not new. */
  function NewWrites(c: Conn, op: Op): seq<SdoCommand>
    requires Valid(c)
  {
    if op.Poll? then Writes(Step(c, op).1) else []
  }

  /** The connection closes because there is nothing more to do. */
  predicate Completes(c: Conn, op: Op)
    requires Valid(c)
  {
    match op
    case Tick(_, _) => false
    case Poll(_, _) => c.state.Established? && Step(c, op).0.state.Closed?
    case Response(h, cmd) =>
      && Acknowledges(c, h) && h.ssnr == ExpectedSsnr(c) && !cmd.header.isAborted
      && c.state.DownloadInProgress? && c.offset >= c.total && !Prepared(c).1
  }

  lemma PreparedKeepsTodo(c: Conn)
    ensures var (c', ready) := Prepared(c);
            if ready then
              && Loaded(c') && c'.offset == 0
              && JobFrames(JobEntries(c.job), c.tid)
                 == FramesFrom(c'.buffer, 0, c'.tid) + JobFrames(JobEntries(c'.job), c'.tid)
            else JobEntries(c.job) == []
  {
    if Prepared(c).1 {
      var DcfJob(data, position, remaining) := c.job.value;
      var (e, next) := ParseEntry(data, position).value;
      assert ParseAll(data, position, remaining)[1..] == ParseAll(data, next, remaining - 1);
    }
  }

  lemma SegmentIsHead(c: Conn, now: nat, t: Timing)
    requires Valid(c) && Downloads(c) && c.last.None? && !c.state.Opening?
    ensures var (c', out) := SentSegment(c, now, t);
            && c'.state.DownloadInProgress? && Downloads(c')
            && (c.offset == 0 ==> c'.offset > 0)
            && Writes(out) + FramesFrom(c'.buffer, c'.offset, c'.tid) == FramesFrom(c.buffer, c.offset, c.tid)
  {
    var cmd := WriteCommand(c.buffer, c.offset, c.tid);
    assert cmd.payload == [] <==> c.offset == |c.buffer|;
  }

  /** A step sends the head of what is left or leaves it; and a completion leaves nothing. */
  ghost predicate Conserves(c: Conn, op: Op)
    requires Valid(c)
  {
    && Sane(Step(c, op).0)
    && NewWrites(c, op) + Todo(Step(c, op).0) == Todo(c)
    && (Completes(c, op) ==> Todo(c) == [] && Step(c, op).0.state.Closed?)
  }

  lemma TodoOfDownload(c: Conn)
    requires Valid(c) && Downloads(c)
    ensures Todo(c) == FramesFrom(c.buffer, c.offset, c.tid) + JobFrames(JobEntries(c.job), c.tid)
  {}

  /** What is left does not depend on timers, numbers or the outstanding frame. */
  lemma TodoOfSame(c: Conn, c': Conn)
    requires Valid(c) && Valid(c') && Sane(c)
    requires c' == c.(last := c'.last, deadline := c'.deadline, retriesLeft := c'.retriesLeft,
                      rsn := c'.rsn, ssn := c'.ssn)
    ensures Todo(c') == Todo(c) && Sane(c')
  {}

  lemma PollOfSegment(c: Conn, now: nat, t: Timing)
    requires Valid(c) && Sane(c) && c.last.None?
    requires c.state.DownloadInProgress? || (c.state.Established? && c.buffer != [])
    ensures Conserves(c, Poll(now, t))
  {
    SegmentIsHead(c, now, t);
    var (c', out) := SentSegment(c, now, t);
    assert Step(c, Poll(now, t)) == (c', out);
    assert c'.job == c.job && c'.tid == c.tid && c'.pending == c.pending;
    TodoOfDownload(c);
    TodoOfDownload(c');
    Regroup(Writes(out), FramesFrom(c'.buffer, c'.offset, c'.tid), JobFrames(JobEntries(c.job), c.tid));
  }

  lemma Regroup(a: seq<SdoCommand>, b: seq<SdoCommand>, c: seq<SdoCommand>)
    ensures a + (b + c) == (a + b) + c
  {}

  lemma PollOfNextEntry(c: Conn, now: nat, t: Timing)
    requires Valid(c) && Sane(c) && c.last.None?
    requires c.state.Established? && c.buffer == [] && c.pending.None?
    ensures Conserves(c, Poll(now, t))
  {
    PreparedKeepsTodo(c);
    var (c1, ready) := Prepared(c);
    if ready {
      RecursionIsOneDeep(c, now, t);
      PollOfSegment(c1, now, t);
      assert Step(c, Poll(now, t)) == Step(c1, Poll(now, t));
      assert [] + JobFrames(JobEntries(c.job), c.tid) == JobFrames(JobEntries(c.job), c.tid);
    }
  }

  /** Asking for a request while one is outstanding does nothing. */
  lemma {:induction false} PollOfWaiting(c: Conn, now: nat, t: Timing)
    requires Valid(c) && Sane(c) && c.last.Some?
    ensures Conserves(c, Poll(now, t))
  {
    assert Step(c, Poll(now, t)) == (c, None);
  }

  /** Opening the connection sends no write. */
  lemma {:induction false} PollOfOpening(c: Conn, now: nat, t: Timing)
    requires Valid(c) && Sane(c) && c.last.None? && c.state.Opening?
    ensures Conserves(c, Poll(now, t))
  {
    TodoOfSame(c, Step(c, Poll(now, t)).0);
  }

  /** A connection that has nothing to write sends no write. */
  lemma {:induction false} PollOfReads(c: Conn, now: nat, t: Timing)
    requires Valid(c) && Sane(c) && c.last.None? && !c.state.Opening? && !Downloads(c)
    requires c.state.Established? ==> c.pending.Some?
    ensures Conserves(c, Poll(now, t))
  {
    var c' := Step(c, Poll(now, t)).0;
    assert Todo(c) == [];
    assert !c'.state.Opening? && !c'.state.Established? && !c'.state.DownloadInProgress?;
  }

  lemma PollConserves(c: Conn, now: nat, t: Timing)
    requires Valid(c) && Sane(c)
    ensures Conserves(c, Poll(now, t))
  {
    if c.last.None? && (c.state.DownloadInProgress? || (c.state.Established? && c.buffer != [])) {
      PollOfSegment(c, now, t);
    } else if c.last.None? && c.state.Established? && c.pending.None? {
      PollOfNextEntry(c, now, t);
    } else if c.last.Some? {
      PollOfWaiting(c, now, t);
    } else if c.state.Opening? {
      PollOfOpening(c, now, t);
    } else {
      PollOfReads(c, now, t);
    }
  }

  /** The connection gives up. */
  ghost predicate GivesUp(c: Conn, op: Op)
    requires Valid(c)
  {
    Step(c, op).0.state.Closed? && Sane(Step(c, op).0) && NewWrites(c, op) == [] && !Completes(c, op)
  }

  lemma TickConserves(c: Conn, now: nat, t: Timing)
    requires Valid(c) && Sane(c)
    ensures Conserves(c, Tick(now, t)) || GivesUp(c, Tick(now, t))
  {}

  lemma EndOfEntry(c: Conn, h: SequenceHeader, cmd: SdoCommand)
    requires Valid(c) && Sane(c) && c.state.DownloadInProgress? && c.offset >= c.total
    requires Acknowledges(c, h) && h.ssnr == ExpectedSsnr(c) && !cmd.header.isAborted
    ensures Conserves(c, Response(h, cmd))
  {
    var taken := Taken(c, h);
    PreparedKeepsTodo(taken);
    var (c1, ready) := Prepared(taken);
    assert Step(c, Response(h, cmd)).0 == c1.(state := if ready then Established else Closed);
    assert Prepared(c).1 == ready;
    assert FramesFrom(c.buffer, c.offset, c.tid) == [];
    assert [] + JobFrames(JobEntries(c.job), c.tid) == JobFrames(JobEntries(c.job), c.tid);
  }

  /** A frame that acknowledges nothing, or repeats the last number, changes only the bookkeeping. */
  lemma {:induction false} ResponseIgnored(c: Conn, h: SequenceHeader, cmd: SdoCommand)
    requires Valid(c) && Sane(c) && (!Acknowledges(c, h) || h.ssnr == c.rsn)
    ensures Conserves(c, Response(h, cmd))
  {
    TodoOfSame(c, Step(c, Response(h, cmd)).0);
  }

  lemma {:induction false} ResponseCloses(c: Conn, h: SequenceHeader, cmd: SdoCommand)
    requires Valid(c) && Sane(c) && Acknowledges(c, h) && h.ssnr != c.rsn
    requires h.ssnr != ExpectedSsnr(c) || cmd.header.isAborted
    ensures GivesUp(c, Response(h, cmd))
  {}

  lemma {:induction false} SegmentTaken(c: Conn, h: SequenceHeader, cmd: SdoCommand)
    requires Valid(c) && Sane(c) && c.state.DownloadInProgress? && c.offset < c.total
    requires Acknowledges(c, h) && h.ssnr == ExpectedSsnr(c) && !cmd.header.isAborted
    ensures Conserves(c, Response(h, cmd))
  {
    TodoOfSame(c, Step(c, Response(h, cmd)).0);
  }

  /** Nothing is owed in the other states, and no response leads back from them. */
  lemma {:induction false} ResponseToRead(c: Conn, h: SequenceHeader, cmd: SdoCommand)
    requires Valid(c) && Sane(c) && (c.state.UploadInit? || c.state.UploadInProgress?)
    requires Acknowledges(c, h) && h.ssnr == ExpectedSsnr(c) && !cmd.header.isAborted
    ensures Conserves(c, Response(h, cmd))
  {
    var c' := Step(c, Response(h, cmd)).0;
    assert !c'.state.Opening? && !c'.state.Established? && !c'.state.DownloadInProgress?;
  }

  lemma {:induction false} ResponseConserves(c: Conn, h: SequenceHeader, cmd: SdoCommand)
    requires Valid(c) && Sane(c)
    ensures Conserves(c, Response(h, cmd)) || GivesUp(c, Response(h, cmd))
  {
    if !Acknowledges(c, h) || h.ssnr == c.rsn {
      ResponseIgnored(c, h, cmd);
    } else if h.ssnr != ExpectedSsnr(c) || cmd.header.isAborted {
      ResponseCloses(c, h, cmd);
    } else if c.state.DownloadInProgress? {
      if c.offset >= c.total { EndOfEntry(c, h, cmd); } else { SegmentTaken(c, h, cmd); }
    } else if c.state.Opening? {
      OpeningAnswered(c, h, cmd);
    } else {
      ResponseToRead(c, h, cmd);
    }
  }

  lemma {:induction false} OpeningAnswered(c: Conn, h: SequenceHeader, cmd: SdoCommand)
    requires Valid(c) && Sane(c) && c.state.Opening?
    requires Acknowledges(c, h) && h.ssnr == ExpectedSsnr(c) && !cmd.header.isAborted
    ensures Conserves(c, Response(h, cmd)) || GivesUp(c, Response(h, cmd))
  {
    var c' := Step(c, Response(h, cmd)).0;
    if c'.state.Established? {
      EstablishedKeepsTodo(c, c');
    }
  }

  lemma {:induction false} EstablishedKeepsTodo(c: Conn, c': Conn)
    requires Valid(c) && Valid(c') && Sane(c) && c.state.Opening? && c'.state.Established?
    requires c' == c.(state := Established, last := None, deadline := None, retriesLeft := 0, rsn := c'.rsn)
    ensures Todo(c') == Todo(c) && Sane(c')
  {}

  /**
   * Conservation: a step either sends the head of what is left, or leaves it as it is, or gives
   * up; and a connection that closes because it is done has nothing left.
   */
  lemma StepConserves(c: Conn, op: Op)
    requires Valid(c) && Sane(c)
    ensures Conserves(c, op) || GivesUp(c, op)
  {
    match op {
      case Tick(now, t) => TickConserves(c, now, t);
      case Poll(now, t) => PollConserves(c, now, t);
      case Response(h, cmd) => ResponseConserves(c, h, cmd);
    }
  }

  // ---- Runs ----

  /** A run so far: the connection, all new frames, all server frames taken, and some counts. */
  datatype Trace = Trace(conn: Conn, sent: seq<Frame>, taken: seq<Frame>, acked: nat, resent: nat, budget: nat)

  function Start(c: Conn): Trace { Trace(c, [], [], 0, 0, 0) }

  function Advance(tr: Trace, op: Op): Trace
    requires Valid(tr.conn)
  {
    var (c', out) := Step(tr.conn, op);
    match op
    case Tick(_, _) =>
      tr.(conn := c', resent := if out.Some? && !c'.state.Closed? then tr.resent + 1 else tr.resent)
    case Poll(_, t) =>
      if out.Some? then tr.(conn := c', sent := tr.sent + [out.value], resent := 0, budget := t.retries)
      else tr.(conn := c')
    case Response(h, cmd) =>
      if !Acknowledges(tr.conn, h) then tr.(conn := c')
      else if h.ssnr == ExpectedSsnr(tr.conn) then
        tr.(conn := c', acked := tr.acked + 1, taken := tr.taken + [Frame(h, cmd)])
      else tr.(conn := c', acked := tr.acked + 1)
  }

  function Run(tr: Trace, ops: seq<Op>): (r: Trace)
    requires Valid(tr.conn)
    ensures Valid(r.conn)
  {
    if ops == [] then tr
    else
      var before := Run(tr, ops[..|ops| - 1]);
      Advance(before, ops[|ops| - 1])
  }

  /** One more step of a run. */
  lemma RunSnoc(c: Conn, ops: seq<Op>, op: Op)
    requires Valid(c)
    ensures Run(Start(c), ops + [op]) == Advance(Run(Start(c), ops), op)
  {
    assert (ops + [op])[..|ops|] == ops;
  }

  /** The data-carrying write commands of a frame list. */
  function WritesIn(fs: seq<Frame>): seq<SdoCommand> {
    if fs == [] then [] else WritesIn(fs[..|fs| - 1]) + Writes(Some(fs[|fs| - 1]))
  }

  lemma WritesInSnoc(fs: seq<Frame>, f: Frame)
    ensures WritesIn(fs + [f]) == WritesIn(fs) + Writes(Some(f))
  {
    assert (fs + [f])[..|fs|] == fs;
  }

  lemma AdvanceWrites(tr: Trace, op: Op)
    requires Valid(tr.conn)
    ensures WritesIn(Advance(tr, op).sent) == WritesIn(tr.sent) + NewWrites(tr.conn, op)
  {
    if op.Poll? && Step(tr.conn, op).1.Some? { WritesInSnoc(tr.sent, Step(tr.conn, op).1.value); }
  }

  /** sent is a prefix of all, and together with what is left it is all until the connection closes. */
  ghost predicate Accounts(tr: Trace, all: seq<SdoCommand>)
    requires Valid(tr.conn)
  {
    && Sane(tr.conn)
    && WritesIn(tr.sent) <= all
    && (!tr.conn.state.Closed? ==> WritesIn(tr.sent) + Todo(tr.conn) == all)
  }

  lemma AdvanceConn(tr: Trace, op: Op)
    requires Valid(tr.conn)
    ensures Advance(tr, op).conn == Step(tr.conn, op).0
  {}

  lemma OneMore(older: seq<SdoCommand>, added: seq<SdoCommand>, left: seq<SdoCommand>, todo: seq<SdoCommand>)
    requires added + left == todo
    ensures (older + added) + left == older + todo
    ensures older + added <= older + todo
  {}

  lemma AdvanceAccounts(tr: Trace, op: Op, all: seq<SdoCommand>)
    requires Valid(tr.conn) && Accounts(tr, all)
    ensures Accounts(Advance(tr, op), all)
  {
    AdvanceWrites(tr, op);
    AdvanceConn(tr, op);
    var c' := Step(tr.conn, op).0;
    if tr.conn.state.Closed? {
      ClosedStaysClosed(tr.conn, op);
      assert NewWrites(tr.conn, op) == [];
    } else {
      StepConserves(tr.conn, op);
      if Conserves(tr.conn, op) {
        OneMore(WritesIn(tr.sent), NewWrites(tr.conn, op), Todo(c'), Todo(tr.conn));
      }
    }
  }

  /**
   * In every run, in any order of timeouts, requests and arbitrary responses, the new write
   * frames so far followed by what is left are exactly what was there to send at the start, until the
   * connection closes; after that they are a prefix of it.
   */
  lemma {:induction false} RunConserves(c: Conn, ops: seq<Op>)
    requires Valid(c) && Sane(c)
    ensures Accounts(Run(Start(c), ops), Todo(c))
  {
    if ops == [] {
      assert WritesIn([]) + Todo(c) == Todo(c);
    } else {
      RunConserves(c, ops[..|ops| - 1]);
      AdvanceAccounts(Run(Start(c), ops[..|ops| - 1]), ops[|ops| - 1], Todo(c));
    }
  }

  lemma ClosedStaysClosed(c: Conn, op: Op)
    requires Valid(c)
    ensures c.state.Closed? ==> Step(c, op) == (c, None)
  {}

  /** A run whose last step closes the connection as done has sent everything. */
  lemma CompletionMeansAll(c: Conn, ops: seq<Op>, op: Op)
    requires Valid(c) && Sane(c)
    requires var before := Run(Start(c), ops); !before.conn.state.Closed? && Completes(before.conn, op)
    ensures WritesIn(Run(Start(c), ops + [op]).sent) == Todo(c)
  {
    var before := Run(Start(c), ops);
    RunConserves(c, ops);
    StepConserves(before.conn, op);
    AdvanceWrites(before, op);
    assert (ops + [op])[..|ops|] == ops;
    assert NewWrites(before.conn, op) == [];
  }

  // ---- Concise DCF jobs and single writes ----

  lemma DcfTodo(target: u8, data: seq<u8>, tid: u8, now: nat, t: Timing)
    requires |data| >= 4
    ensures var c := DcfStarted(NewConn(target), data, tid, now, t).0;
            && Valid(c) && Sane(c)
            && Todo(c) == JobFrames(ParseAll(data, 4, EntryCount(data)), tid)
  {
    var c0 := Started(NewConn(target), tid, now, t).(job := Some(DcfJob(data, 4, EntryCount(data))));
    StartedIsValid(NewConn(target), data, Entry(0, 0, []), tid, now, t);
    PreparedKeepsTodo(c0);
    assert Prepared(c0).0 == DcfStarted(NewConn(target), data, tid, now, t).0;
  }

  /**
   * Delivery of a whole job. The new write frames of any run are a prefix of the frames of the
   * entries of the longest well-formed prefix of the stream, in order and under one non-zero
   * transaction id per entry; when the connection closes as done they are all of them, and their payloads
   * together are the write payloads of the entries.
   */
  lemma DcfDelivery(target: u8, data: seq<u8>, tid: u8, now: nat, t: Timing, ops: seq<Op>, op: Op)
    requires |data| >= 4
    ensures var c := DcfStarted(NewConn(target), data, tid, now, t).0;
            var es := ParseAll(data, 4, EntryCount(data));
            && Valid(c)
            && WritesIn(Run(Start(c), ops).sent) <= JobFrames(es, tid)
            && (!Run(Start(c), ops).conn.state.Closed? && Completes(Run(Start(c), ops).conn, op) ==>
                  && WritesIn(Run(Start(c), ops + [op]).sent) == JobFrames(es, tid)
                  && Payloads(WritesIn(Run(Start(c), ops + [op]).sent)) == WritePayloads(es))
  {
    var c := DcfStarted(NewConn(target), data, tid, now, t).0;
    DcfTodo(target, data, tid, now, t);
    RunConserves(c, ops);
    JobFramesCarryPayloads(ParseAll(data, 4, EntryCount(data)), tid);
    if !Run(Start(c), ops).conn.state.Closed? && Completes(Run(Start(c), ops).conn, op) {
      CompletionMeansAll(c, ops, op);
    }
  }

  /** The same for a single write. */
  lemma WriteDelivery(target: u8, e: Entry, tid: u8, now: nat, t: Timing, ops: seq<Op>, op: Op)
    ensures var c := WriteStarted(NewConn(target), e, tid, now, t).0;
            var p := WritePayload(e);
            && Valid(c)
            && WritesIn(Run(Start(c), ops).sent) <= FramesOf(p, tid)
            && (!Run(Start(c), ops).conn.state.Closed? && Completes(Run(Start(c), ops).conn, op) ==>
                  && WritesIn(Run(Start(c), ops + [op]).sent) == FramesOf(p, tid)
                  && Payloads(WritesIn(Run(Start(c), ops + [op]).sent)) == p)
  {
    var c := WriteStarted(NewConn(target), e, tid, now, t).0;
    StartedIsValid(NewConn(target), [], e, tid, now, t);
    assert Todo(c) == FramesOf(WritePayload(e), tid);
    RunConserves(c, ops);
    FramesCarryPayload(WritePayload(e), 0, tid);
    if !Run(Start(c), ops).conn.state.Closed? && Completes(Run(Start(c), ops).conn, op) {
      CompletionMeansAll(c, ops, op);
    }
  }

  /**
   * What arrives, told by a reader of the frames that knows only their format: when a job is done, its
   * new write frames read back as exactly the entries of the longest well-formed prefix of the stream.
   */
  lemma {:induction false} DcfReadsBack(target: u8, data: seq<u8>, tid: u8, now: nat, t: Timing, ops: seq<Op>, op: Op)
    requires |data| >= 4
    ensures var c := DcfStarted(NewConn(target), data, tid, now, t).0;
            && Valid(c)
            && (!Run(Start(c), ops).conn.state.Closed? && Completes(Run(Start(c), ops).conn, op) ==>
                  ReadWrites(WritesIn(Run(Start(c), ops + [op]).sent)) == Some(ParseAll(data, 4, EntryCount(data))))
  {
    DcfDelivery(target, data, tid, now, t, ops, op);
    JobReads(ParseAll(data, 4, EntryCount(data)), tid);
  }

  /** So a file of encoded entries, whatever follows them in it, arrives as those entries. */
  lemma {:induction false} FileArrives(target: u8, es: seq<Entry>, tail: seq<u8>, tid: u8, now: nat, t: Timing,
                                       ops: seq<Op>, op: Op)
    requires AllEncodable(es) && |es| < 0x1_0000_0000
    ensures var c := DcfStarted(NewConn(target), EncodeFile(es) + tail, tid, now, t).0;
            && Valid(c)
            && (!Run(Start(c), ops).conn.state.Closed? && Completes(Run(Start(c), ops).conn, op) ==>
                  ReadWrites(WritesIn(Run(Start(c), ops + [op]).sent)) == Some(es))
  {
    ParserInvertsEncoder(es, tail);
    DcfReadsBack(target, EncodeFile(es) + tail, tid, now, t, ops, op);
  }

  /** A single write that is done reads back as the one entry that was asked for. */
  lemma {:induction false} WriteReadsBack(target: u8, e: Entry, tid: u8, now: nat, t: Timing, ops: seq<Op>, op: Op)
    ensures var c := WriteStarted(NewConn(target), e, tid, now, t).0;
            && Valid(c)
            && (!Run(Start(c), ops).conn.state.Closed? && Completes(Run(Start(c), ops).conn, op) ==>
                  var fs := WritesIn(Run(Start(c), ops + [op]).sent);
                  fs != [] && ReadWrite(fs) == Some(e))
  {
    WriteDelivery(target, e, tid, now, t, ops, op);
    WriteReads(e, tid);
  }

  /**
   * The next entry is loaded only by the acknowledgement of an outstanding frame that arrives
   * when all bytes of the current entry have been sent.
   */
  lemma LoadsOnlyAfterAck(c: Conn, op: Op)
    requires Valid(c) && Downloads(c)
    requires var c' := Step(c, op).0; c'.job != c.job && !c'.state.Closed?
    ensures op.Response? && Acknowledges(c, op.header) && c.state.DownloadInProgress?
    ensures FramesFrom(c.buffer, c.offset, c.tid) == []
  {}

  // ---- Runs without duplicate server frames ----

  /** A server frame that acknowledges but repeats the last number. */
  predicate IsDuplicate(c: Conn, op: Op) { op.Response? && Acknowledges(c, op.header) && op.header.ssnr == c.rsn }

  predicate NoDuplicates(c: Conn, ops: seq<Op>)
    requires Valid(c)
  {
    ops == [] ||
    (NoDuplicates(c, ops[..|ops| - 1]) && !IsDuplicate(Run(Start(c), ops[..|ops| - 1]).conn, ops[|ops| - 1]))
  }

  /** All write commands among the new frames, empty ones included. */
  function AllWrites(fs: seq<Frame>): seq<SdoCommand> {
    if fs == [] then []
    else
      var cmd := fs[|fs| - 1].cmd;
      AllWrites(fs[..|fs| - 1]) + if cmd.header.commandId.WriteByIndex? then [cmd] else []
  }

  /** Nothing outstanding in a download means that there are bytes left. */
  predicate NothingOwed(c: Conn) { c.state.DownloadInProgress? && c.last.None? ==> c.offset < c.total }

  lemma StepOwesNothing(c: Conn, op: Op)
    requires Valid(c) && Sane(c) && NothingOwed(c) && !IsDuplicate(c, op)
    ensures NothingOwed(Step(c, op).0)
    ensures op.Poll? && Step(c, op).1.Some? && Step(c, op).1.value.cmd.header.commandId.WriteByIndex? ==>
              Step(c, op).1.value.cmd.payload != []
  {
    if op.Poll? && c.last.None? && c.state.Established? && c.buffer == [] && c.pending.None? && Prepared(c).1 {
      RecursionIsOneDeep(c, op.now, op.timing);
    }
  }

  /**
   * Without duplicate server frames every write command carries data, so the delivered frames
   * above are all the write commands there are. (A duplicate can bring about empty Complete frames.)
   */
  lemma {:induction false} NoEmptyWrites(c: Conn, ops: seq<Op>)
    requires Valid(c) && Sane(c) && NothingOwed(c) && NoDuplicates(c, ops)
    ensures NothingOwed(Run(Start(c), ops).conn) && Sane(Run(Start(c), ops).conn)
    ensures AllWrites(Run(Start(c), ops).sent) == WritesIn(Run(Start(c), ops).sent)
  {
    if ops != [] {
      var op := ops[|ops| - 1];
      var before := Run(Start(c), ops[..|ops| - 1]);
      NoEmptyWrites(c, ops[..|ops| - 1]);
      RunConserves(c, ops);
      AdvanceConn(before, op);
      StepOwesNothing(before.conn, op);
      if op.Poll? && Step(before.conn, op).1.Some? {
        var f := Step(before.conn, op).1.value;
        WritesInSnoc(before.sent, f);
        assert (before.sent + [f])[..|before.sent|] == before.sent;
      }
    }
  }

  // ---- Stop and wait ----

  /** Numbering and bookkeeping of a run. */
  ghost predicate StopAndWait(tr: Trace) {
    && Valid(tr.conn)
    && tr.conn.ssn == |tr.sent| % 64
    && tr.conn.rsn == (|tr.taken| + 63) % 64
    && (forall k :: 0 <= k < |tr.sent| ==> tr.sent[k].seqHeader.ssnr == k % 64 && tr.sent[k].seqHeader.rsnr < 64)
    && (forall k :: 0 <= k < |tr.taken| ==> tr.taken[k].seqHeader.ssnr == k % 64)
    && tr.acked <= |tr.sent| <= tr.acked + 1
    && (tr.conn.last.Some? ==>
          && |tr.sent| == tr.acked + 1
          && tr.conn.last.value == tr.sent[|tr.sent| - 1]
          && tr.resent + tr.conn.retriesLeft == tr.budget)
    && (tr.conn.last.None? && !tr.conn.state.Closed? ==> tr.acked == |tr.sent|)
    && (tr.conn.last.None? ==> tr.resent <= tr.budget || tr.sent == [])
  }

  /** What a new frame looks like. */
  lemma PollSends(c: Conn, now: nat, t: Timing)
    requires Valid(c) && Polled(c, now, t).1.Some?
    ensures var (c', out) := Polled(c, now, t);
            && c.last.None? && !c.state.Closed? && c'.last == out && c'.ssn == (c.ssn + 1) % 64 && c'.rsn == c.rsn
            && c'.retriesLeft == t.retries
            && out.value.seqHeader.ssnr == c.ssn && out.value.seqHeader.rsnr == c.rsn
  {
    if c.state.Established? && c.buffer == [] && c.pending.None? {
      assert Prepared(c).1;
      RecursionIsOneDeep(c, now, t);
    }
  }

  lemma PollSilent(c: Conn, now: nat, t: Timing)
    requires Valid(c) && Polled(c, now, t).1.None?
    ensures Polled(c, now, t).0 == c || (c.last.None? && Polled(c, now, t).0 == c.(job := None, state := Closed))
  {
    if c.last.None? && c.state.Established? && c.buffer == [] && c.pending.None? {
      if Prepared(c).1 { RecursionIsOneDeep(c, now, t); }
    }
  }

  /** A timeout sends nothing, the outstanding frame once more, or an abort that closes the connection. */
  lemma TickSends(c: Conn, now: nat, t: Timing)
    requires Valid(c)
    ensures var (c', out) := Ticked(c, now, t);
            || (out.None? && c' == c)
            || (c.retriesLeft > 0 && out == c.last
                && c' == c.(retriesLeft := c.retriesLeft - 1, deadline := c'.deadline))
            || (c.retriesLeft == 0 && c'.state.Closed? && c'.last.None?
                && out.Some? && out.value.cmd.header.isAborted && out.value.seqHeader.ssnr < 64)
  {}

  lemma ResponseNumbers(c: Conn, h: SequenceHeader, cmd: SdoCommand)
    requires Valid(c)
    ensures var c' := Responded(c, h, cmd);
            && c'.ssn == c.ssn
            && (if Acknowledges(c, h) then c'.last.None? else c' == c)
            && c'.rsn == if Acknowledges(c, h) && h.ssnr == ExpectedSsnr(c) then h.ssnr else c.rsn
  {}

  lemma TickStopsAndWaits(tr: Trace, now: nat, t: Timing)
    requires StopAndWait(tr)
    ensures StopAndWait(Advance(tr, Tick(now, t)))
  {
    TickSends(tr.conn, now, t);
    TickedIsValid(tr.conn, now, t);
  }

  lemma PollStopsAndWaits(tr: Trace, now: nat, t: Timing)
    requires StopAndWait(tr)
    ensures StopAndWait(Advance(tr, Poll(now, t)))
  {
    var (c', out) := Polled(tr.conn, now, t);
    var tr' := Advance(tr, Poll(now, t));
    PolledIsValid(tr.conn, now, t);
    if out.Some? {
      PollSends(tr.conn, now, t);
      assert tr' == Trace(c', tr.sent + [out.value], tr.taken, tr.acked, 0, t.retries);
      assert tr.acked == |tr.sent|;
    } else {
      PollSilent(tr.conn, now, t);
      assert tr' == tr.(conn := c');
    }
  }

  /** An acknowledged frame ends the wait; c' is the connection afterwards. */
  lemma {:induction false} AcknowledgedStopsAndWaits(tr: Trace, h: SequenceHeader, cmd: SdoCommand, c': Conn)
    requires StopAndWait(tr) && Acknowledges(tr.conn, h) && Valid(c') && c'.ssn == tr.conn.ssn && c'.last.None?
    requires c'.rsn == if h.ssnr == ExpectedSsnr(tr.conn) then h.ssnr else tr.conn.rsn
    ensures h.ssnr == ExpectedSsnr(tr.conn) ==>
              StopAndWait(Trace(c', tr.sent, tr.taken + [Frame(h, cmd)], tr.acked + 1, tr.resent, tr.budget))
    ensures h.ssnr != ExpectedSsnr(tr.conn) ==>
              StopAndWait(Trace(c', tr.sent, tr.taken, tr.acked + 1, tr.resent, tr.budget))
  {
    if h.ssnr == ExpectedSsnr(tr.conn) {
      assert h.ssnr == |tr.taken| % 64;
    }
  }

  lemma {:induction false} ResponseStopsAndWaits(tr: Trace, h: SequenceHeader, cmd: SdoCommand)
    requires StopAndWait(tr)
    ensures StopAndWait(Advance(tr, Response(h, cmd)))
  {
    RespondedIsValid(tr.conn, h, cmd);
    ResponseNumbers(tr.conn, h, cmd);
    if Acknowledges(tr.conn, h) {
      AcknowledgedStopsAndWaits(tr, h, cmd, Responded(tr.conn, h, cmd));
    }
  }

  /**
   * Stop-and-wait in every reachable state: at most one frame is unacknowledged, the k-th new
   * frame and the k-th server frame taken carry the number k mod 64, the only frame ever sent again is
   * the outstanding one, and that at most as often as the retry count says.
   */
  lemma {:induction false} RunStopsAndWaits(c: Conn, ops: seq<Op>)
    requires Valid(c) && c.ssn == 0 && c.rsn == 63 && c.last.None? && !c.state.Closed?
    ensures StopAndWait(Run(Start(c), ops))
  {
    if ops != [] {
      RunStopsAndWaits(c, ops[..|ops| - 1]);
      var before := Run(Start(c), ops[..|ops| - 1]);
      match ops[|ops| - 1] {
        case Tick(now, t) => TickStopsAndWaits(before, now, t);
        case Poll(now, t) => PollStopsAndWaits(before, now, t);
        case Response(h, cmd) => ResponseStopsAndWaits(before, h, cmd);
      }
    }
  }

  /** So every frame that a run sends has a header that survives its encoding. */
  lemma SentHeadersEncode(c: Conn, ops: seq<Op>, op: Op)
    requires Valid(c) && c.ssn == 0 && c.rsn == 63 && c.last.None? && !c.state.Closed?
    requires Step(Run(Start(c), ops).conn, op).1.Some?
    ensures var h := Step(Run(Start(c), ops).conn, op).1.value.seqHeader;
            HeaderFromBytes(HeaderBytes(h)) == Ok(h)
  {
    var now := Run(Start(c), ops).conn;
    var h := Step(now, op).1.value.seqHeader;
    match op {
      case Tick(time, t) => TickSends(now, time, t);
      case Poll(time, t) => PollSends(now, time, t);
      case Response(_, _) =>
    }
    HeaderRoundTrip(h, []);
    assert HeaderBytes(h) + [] == HeaderBytes(h);
  }

  /** n timeouts in a row, each after the deadline of the one before. */
  function Timeouts(c: Conn, n: nat, now: nat, t: Timing): (Conn, seq<Option<Frame>>)
    requires c.deadline.Some?
    decreases n
  {
    if n == 0 || c.deadline.None? then (c, [])
    else
      var at := if now < c.deadline.value then c.deadline.value else now;
      var (c', out) := Ticked(c, at, t);
      if c'.deadline.None? then (c', [out])
      else
        var (c'', outs) := Timeouts(c', n - 1, at, t);
        (c'', [out] + outs)
  }

  /** A server that stays silent sees the outstanding frame exactly retriesLeft more times, then one abort. */
  lemma {:induction false} SilentServer(c: Conn, now: nat, t: Timing)
    requires Valid(c) && c.last.Some?
    ensures var (c', outs) := Timeouts(c, c.retriesLeft + 1, now, t);
            && |outs| == c.retriesLeft + 1
            && (forall k :: 0 <= k < c.retriesLeft ==> outs[k] == c.last)
            && outs[c.retriesLeft] == Some(AbortFrame(c, 0x0504_0000))
            && c'.state.Closed? && c'.last.None?
    decreases c.retriesLeft
  {
    if c.retriesLeft > 0 {
      var at := if now < c.deadline.value then c.deadline.value else now;
      var c1 := Ticked(c, at, t).0;
      SilentServer(c1, at, t);
      assert AbortFrame(c1, 0x0504_0000) == AbortFrame(c, 0x0504_0000);
    }
  }
}
