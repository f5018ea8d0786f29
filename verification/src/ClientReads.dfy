/**
 * Whole runs of a read: what the connection ends up with of the server's answer. The payload of the
 * Initiate frame that begins a segmented answer is not among it.
 */
module ClientReads {
  import opened Wrappers
  import opened Bytes
  import opened SdoCommands
  import opened ConciseDcf
  import opened ClientSteps
  import opened ClientRuns

  /** The data carried by a list of server frames. */
  function DataOf(fs: seq<Frame>): seq<u8> {
    if fs == [] then [] else DataOf(fs[..|fs| - 1]) + fs[|fs| - 1].cmd.payload
  }

  lemma DataOfSnoc(fs: seq<Frame>, f: Frame)
    ensures DataOf(fs + [f]) == DataOf(fs) + f.cmd.payload
  {
    assert (fs + [f])[..|fs|] == fs;
  }

  function ReadRequest(index: u16, sub: u8, tid: u8): SdoCommand {
    SdoCommand(CommandHeader(tid, false, false, Expedited, ReadByIndex, 4), None, Le(index, 2) + [sub, 0])
  }

  function SegmentRequest(tid: u8): SdoCommand {
    SdoCommand(CommandHeader(tid, false, false, Segment, ReadByIndex, 0), None, [])
  }

  /** The only commands that a read sends. */
  predicate BelongsToRead(cmd: SdoCommand, request: SdoCommand, tid: u8) {
    cmd == SdoCommand(DefaultHeader(tid), None, []) || cmd == request || cmd == SegmentRequest(tid)
  }

  /** The frames taken so far are those of a segmented answer that has not ended. */
  predicate Segmented(taken: seq<Frame>) {
    && |taken| >= 2
    && taken[1].cmd.header.segmentation == Initiate
    && forall k :: 2 <= k < |taken| ==> taken[k].cmd.header.segmentation == Segment
  }

  /**
   * How far a read has come, told from the server frames it has taken: the buffer of a segmented
   * answer holds the data behind its Initiate frame.
   */
  ghost predicate Reading(tr: Trace, request: SdoCommand, tid: u8) {
    && Valid(tr.conn) && tr.conn.tid == tid && tr.conn.job.None?
    && (forall k :: 0 <= k < |tr.sent| ==> BelongsToRead(tr.sent[k].cmd, request, tid))
    && match tr.conn.state
       case Opening => tr.taken == [] && tr.conn.buffer == [] && tr.conn.pending == Some(request)
       case Established => |tr.taken| == 1 && tr.conn.buffer == [] && tr.conn.pending == Some(request)
       case UploadInit => |tr.taken| == 1 && tr.conn.pending.None?
       case UploadInProgress => Segmented(tr.taken) && tr.conn.buffer == DataOf(tr.taken[2..])
       case Closed => true
       case _ => false
  }

  lemma {:induction false} TickReads(tr: Trace, now: nat, t: Timing, request: SdoCommand, tid: u8)
    requires Reading(tr, request, tid)
    ensures Reading(Advance(tr, Tick(now, t)), request, tid)
  {
    TickSends(tr.conn, now, t);
  }

  lemma {:induction false} PollReads(tr: Trace, now: nat, t: Timing, request: SdoCommand, tid: u8)
    requires Reading(tr, request, tid)
    ensures Reading(Advance(tr, Poll(now, t)), request, tid)
  {
    var (c', out) := Step(tr.conn, Poll(now, t));
    assert out.Some? ==> BelongsToRead(out.value.cmd, request, tid);
  }

  /** What a well-numbered frame makes of an upload in progress. */
  lemma {:induction false} UploadTakes(c: Conn, h: SequenceHeader, cmd: SdoCommand)
    requires Valid(c) && c.state.UploadInProgress? && Acknowledges(c, h) && h.ssnr == ExpectedSsnr(c)
    ensures var c' := Responded(c, h, cmd);
            if cmd.header.isAborted || cmd.header.segmentation.Expedited? || cmd.header.segmentation.Initiate? then
              c'.state.Closed? && c'.tid == c.tid && c'.job in {None, c.job}
            else c' == Taken(c, h).(buffer := c.buffer + cmd.payload,
                                    state := if cmd.header.segmentation.Complete? then Closed else UploadInProgress)
  {}

  /** The data taken grows by one frame. */
  lemma {:induction false} TakenGrows(taken: seq<Frame>, f: Frame)
    requires |taken| >= 2
    ensures DataOf((taken + [f])[2..]) == DataOf(taken[2..]) + f.cmd.payload
  {
    DataOfSnoc(taken[2..], f);
    assert (taken + [f])[2..] == taken[2..] + [f];
  }

  lemma {:induction false} TakenReads(tr: Trace, h: SequenceHeader, cmd: SdoCommand, request: SdoCommand, tid: u8)
    requires Reading(tr, request, tid) && tr.conn.state.UploadInProgress?
    requires Acknowledges(tr.conn, h) && h.ssnr == ExpectedSsnr(tr.conn)
    ensures Reading(Advance(tr, Response(h, cmd)), request, tid)
  {
    UploadTakes(tr.conn, h, cmd);
    TakenGrows(tr.taken, Frame(h, cmd));
    RespondedIsValid(tr.conn, h, cmd);
    StaysReading(tr, Responded(tr.conn, h, cmd), Frame(h, cmd), request, tid);
  }

  lemma {:induction false} StaysReading(tr: Trace, c': Conn, f: Frame, request: SdoCommand, tid: u8)
    requires Reading(tr, request, tid) && tr.conn.state.UploadInProgress? && Valid(c') && c'.tid == tid && c'.job.None?
    requires c'.state.Closed? || (c'.state.UploadInProgress? && f.cmd.header.segmentation.Segment?
                                  && c'.buffer == tr.conn.buffer + f.cmd.payload)
    requires DataOf((tr.taken + [f])[2..]) == DataOf(tr.taken[2..]) + f.cmd.payload
    ensures Reading(tr.(conn := c', acked := tr.acked + 1, taken := tr.taken + [f]), request, tid)
  {}

  lemma {:induction false} ResponseReads(tr: Trace, h: SequenceHeader, cmd: SdoCommand, request: SdoCommand, tid: u8)
    requires Reading(tr, request, tid)
    ensures Reading(Advance(tr, Response(h, cmd)), request, tid)
  {
    if tr.conn.state.UploadInProgress? && Acknowledges(tr.conn, h) && h.ssnr == ExpectedSsnr(tr.conn) {
      TakenReads(tr, h, cmd, request, tid);
    }
  }

  lemma {:induction false} RunReads(target: u8, index: u16, sub: u8, tid: u8, now: nat, t: Timing, ops: seq<Op>)
    ensures var c := ReadStarted(NewConn(target), index, sub, tid, now, t).0;
            Valid(c) && Reading(Run(Start(c), ops), ReadRequest(index, sub, tid), tid)
  {
    var c := ReadStarted(NewConn(target), index, sub, tid, now, t).0;
    var request := ReadRequest(index, sub, tid);
    StartedIsValid(NewConn(target), [], Entry(index, sub, []), tid, now, t);
    if ops != [] {
      RunReads(target, index, sub, tid, now, t, ops[..|ops| - 1]);
      var before := Run(Start(c), ops[..|ops| - 1]);
      match ops[|ops| - 1] {
        case Tick(time, timing) => TickReads(before, time, timing, request, tid);
        case Poll(time, timing) => PollReads(before, time, timing, request, tid);
        case Response(h, cmd) => ResponseReads(before, h, cmd, request, tid);
      }
    }
  }

  /** The server frame that ends a read with its data. */
  predicate EndsRead(c: Conn, op: Op) {
    && op.Response? && Acknowledges(c, op.header) && op.header.ssnr == ExpectedSsnr(c) && !op.cmd.header.isAborted
    && ((c.state.UploadInit? && op.cmd.header.segmentation.Expedited?)
        || (c.state.UploadInProgress? && op.cmd.header.segmentation.Complete?))
  }

  lemma {:induction false} SegmentedReadEnds(tr: Trace, op: Op, request: SdoCommand, tid: u8)
    requires Reading(tr, request, tid) && EndsRead(tr.conn, op) && tr.conn.state.UploadInProgress?
    ensures var after := Advance(tr, op);
            after.conn.state.Closed? && |after.taken| > 2 && after.conn.buffer == DataOf(after.taken[2..])
  {
    UploadTakes(tr.conn, op.header, op.cmd);
    TakenGrows(tr.taken, Frame(op.header, op.cmd));
  }

  lemma {:induction false} EndHoldsAnswer(tr: Trace, op: Op, request: SdoCommand, tid: u8)
    requires Reading(tr, request, tid) && EndsRead(tr.conn, op)
    ensures HoldsAnswer(Advance(tr, op))
  {
    var after := Advance(tr, op);
    if tr.conn.state.UploadInProgress? {
      SegmentedReadEnds(tr, op, request, tid);
      AnswerWithInitiate(after.taken);
      AllOrLess(after.taken[1].cmd.payload, after.conn.buffer);
    } else {
      ExpeditedReadEnds(tr, op, request, tid);
      AnswerWithInitiate(after.taken);
      assert after.taken[1] == Frame(op.header, op.cmd) && after.taken[2..] == [];
      assert op.cmd.payload + [] == op.cmd.payload;
    }
  }

  lemma {:induction false} ExpeditedReadEnds(tr: Trace, op: Op, request: SdoCommand, tid: u8)
    requires Reading(tr, request, tid) && EndsRead(tr.conn, op) && tr.conn.state.UploadInit?
    ensures var after := Advance(tr, op);
            after.conn.state.Closed? && |after.taken| == 2 && after.conn.buffer == op.cmd.payload
  {}

  /** The data of all frames of the answer, the one that begins it included. */
  function AnswerOf(taken: seq<Frame>): seq<u8>
    requires |taken| >= 1
  {
    DataOf(taken[1..])
  }

  lemma {:induction false} DataOfCons(f: Frame, fs: seq<Frame>)
    ensures DataOf([f] + fs) == f.cmd.payload + DataOf(fs)
  {
    if fs == [] {
      assert [f] + fs == [f] && [f][..0] == [];
      assert [] + f.cmd.payload == f.cmd.payload + [];
    } else {
      var front, last := fs[..|fs| - 1], fs[|fs| - 1];
      assert [f] + fs == ([f] + front) + [last] && fs == front + [last];
      DataOfSnoc([f] + front, last);
      DataOfCons(f, front);
      assert (f.cmd.payload + DataOf(front)) + last.cmd.payload == f.cmd.payload + (DataOf(front) + last.cmd.payload);
    }
  }

  lemma {:induction false} AnswerWithInitiate(taken: seq<Frame>)
    requires |taken| >= 2
    ensures AnswerOf(taken) == taken[1].cmd.payload + DataOf(taken[2..])
  {
    assert taken[1..] == [taken[1]] + taken[2..];
    DataOfCons(taken[1], taken[2..]);
  }

  lemma AllOrLess(a: seq<u8>, b: seq<u8>)
    ensures a + b == b <==> a == []
  {
    if a != [] { assert |a + b| > |b|; }
  }

  /** What the buffer holds when a read has ended: all of an expedited answer, else all but the first frame's data. */
  predicate HoldsAnswer(tr: Trace) {
    && tr.conn.state.Closed? && |tr.taken| >= 2
    && (|tr.taken| == 2 ==> tr.conn.buffer == AnswerOf(tr.taken))
    && (|tr.taken| > 2 ==>
          && AnswerOf(tr.taken) == tr.taken[1].cmd.payload + tr.conn.buffer
          && (tr.conn.buffer == AnswerOf(tr.taken) <==> tr.taken[1].cmd.payload == []))
  }

  /**
   * Delivery of a read, in any order of timeouts, requests and arbitrary responses: it sends nothing
   * but openings, its request and segment requests. When a server frame ends it, the buffer holds the
   * data of the frames taken since the answer began, each once and in order, if the answer is expedited or its
   * Initiate frame carries no data, and only then: what that frame carries is dropped.
   */
  lemma {:induction false} ReadDelivery(target: u8, index: u16, sub: u8, tid: u8, now: nat, t: Timing, ops: seq<Op>,
                                        op: Op)
    ensures var c := ReadStarted(NewConn(target), index, sub, tid, now, t).0;
            && Valid(c)
            && (forall k :: 0 <= k < |Run(Start(c), ops).sent| ==>
                  BelongsToRead(Run(Start(c), ops).sent[k].cmd, ReadRequest(index, sub, tid), tid))
            && (EndsRead(Run(Start(c), ops).conn, op) ==> HoldsAnswer(Run(Start(c), ops + [op])))
  {
    var c := ReadStarted(NewConn(target), index, sub, tid, now, t).0;
    var request := ReadRequest(index, sub, tid);
    RunReads(target, index, sub, tid, now, t, ops);
    var before := Run(Start(c), ops);
    if EndsRead(before.conn, op) {
      RunSnoc(c, ops, op);
      EndHoldsAnswer(before, op, request, tid);
    }
  }

  // ---- What is lost, and what is never looked at ----

  /** The frame of an answer: acknowledges a number, has one, and carries some data. */
  function AnswerFrame(rsnr: u8, ssnr: u8, kind: Segmentation, size: Option<u32>, data: seq<u8>): Op {
    Response(SequenceHeader(rsnr, RConnectionValid, ssnr, SConnectionValid),
             SdoCommand(CommandHeader(1, true, false, kind, ReadByIndex, |data| % 0x1_0000), size, data))
  }

  /** Asking for a request, and then a server frame. */
  function AskAndAnswer(c: Conn, now: nat, t: Timing, answer: Op): (c': Conn)
    requires Valid(c)
    ensures Valid(c')
  {
    Step(Step(c, Poll(now, t)).0, answer).0
  }

  /** A read of the two bytes 7 and 8 that the server sends as Initiate and Complete ends with the second alone. */
  lemma {:induction false} InitiateDataIsLost(target: u8, index: u16, sub: u8, tid: u8, now: nat, t: Timing)
    ensures var c := ReadStarted(NewConn(target), index, sub, tid, now, t).0;
            && Valid(c)
            && var accept := Response(SequenceHeader(0, RInitialization, 0, SInitialization),
                                      SdoCommand(DefaultHeader(1), None, []));
               var c1 := AskAndAnswer(c, now, t, accept);
               var c2 := AskAndAnswer(c1, now, t, AnswerFrame(1, 1, Initiate, Some(2), [7]));
               var c3 := AskAndAnswer(c2, now, t, AnswerFrame(2, 2, Complete, None, [8]));
               c2.total == 2 && c3.state.Closed? && c3.buffer == [8]
  {
    StartedIsValid(NewConn(target), [], Entry(index, sub, []), tid, now, t);
    var c := ReadStarted(NewConn(target), index, sub, tid, now, t).0;
    var accept := Response(SequenceHeader(0, RInitialization, 0, SInitialization),
                           SdoCommand(DefaultHeader(1), None, []));
    var c1 := AskAndAnswer(c, now, t, accept);
    assert c1.state.Established? && c1.buffer == [] && c1.pending.Some? && c1.ssn == 1 && c1.rsn == 0 && c1.last.None?;
    var c2 := AskAndAnswer(c1, now, t, AnswerFrame(1, 1, Initiate, Some(2), [7]));
    assert c2.state.UploadInProgress? && c2.buffer == [] && c2.ssn == 2 && c2.rsn == 1 && c2.last.None?;
  }

  /** Equal but for the size that a server frame announces. */
  predicate SameButSize(a: Op, b: Op) {
    || a == b
    || (a.Response? && b.Response? && a.header == b.header && a.cmd.(dataSize := None) == b.cmd.(dataSize := None))
  }

  /** A connection in the midst of a read. */
  predicate InRead(c: Conn) {
    && Valid(c) && c.job.None? && !c.state.DownloadInProgress?
    && (c.state.Opening? || c.state.Established? ==> c.buffer == [])
    && (c.state.Established? ==> c.pending.Some?)
  }

  lemma {:induction false} PollIgnoresTotal(c: Conn, total: nat, now: nat, t: Timing)
    requires InRead(c) && InRead(c.(total := total))
    ensures var (d, out) := Polled(c, now, t);
            Polled(c.(total := total), now, t) == (d.(total := total), out)
  {}

  lemma {:induction false} TickIgnoresTotal(c: Conn, total: nat, now: nat, t: Timing)
    ensures var (d, out) := Ticked(c, now, t);
            Ticked(c.(total := total), now, t) == (d.(total := total), out)
  {}

  lemma {:induction false} ResponseIgnoresSize(c: Conn, total: nat, h: SequenceHeader, cmd: SdoCommand,
                                               size: Option<u32>)
    requires InRead(c) && InRead(c.(total := total))
    ensures var d, d' := Responded(c, h, cmd), Responded(c.(total := total), h, cmd.(dataSize := size));
            d' == d.(total := d'.total)
  {}

  lemma {:induction false} StepIgnoresSize(c: Conn, c': Conn, a: Op, b: Op)
    requires InRead(c) && InRead(c') && c' == c.(total := c'.total) && SameButSize(a, b)
    ensures Step(c', b).0 == Step(c, a).0.(total := Step(c', b).0.total) && Step(c', b).1 == Step(c, a).1
  {
    match a {
      case Tick(now, t) => TickIgnoresTotal(c, c'.total, now, t);
      case Poll(now, t) => PollIgnoresTotal(c, c'.total, now, t);
      case Response(h, cmd) =>
        assert b.cmd == cmd.(dataSize := b.cmd.dataSize);
        ResponseIgnoresSize(c, c'.total, h, cmd, b.cmd.dataSize);
    }
  }

  lemma {:induction false} ReadingIsInRead(tr: Trace, request: SdoCommand, tid: u8)
    requires Reading(tr, request, tid)
    ensures InRead(tr.conn)
  {}

  /**
   * The announced size is never compared with what arrives: two runs of a read whose server frames
   * differ in nothing but announced sizes send the same and end with the same state and the same data.
   */
  lemma {:induction false} SizesAreIgnored(target: u8, index: u16, sub: u8, tid: u8, now: nat, t: Timing,
                                           ops: seq<Op>, ops': seq<Op>)
    requires |ops'| == |ops| && forall k :: 0 <= k < |ops| ==> SameButSize(ops[k], ops'[k])
    ensures var c := ReadStarted(NewConn(target), index, sub, tid, now, t).0;
            && Valid(c)
            && var tr, tr' := Run(Start(c), ops), Run(Start(c), ops');
               tr'.conn == tr.conn.(total := tr'.conn.total) && tr'.sent == tr.sent
  {
    var c := ReadStarted(NewConn(target), index, sub, tid, now, t).0;
    RunReads(target, index, sub, tid, now, t, ops);
    if ops != [] {
      var m := |ops| - 1;
      var tr, tr' := Run(Start(c), ops[..m]), Run(Start(c), ops'[..m]);
      SizesAreIgnored(target, index, sub, tid, now, t, ops[..m], ops'[..m]);
      RunReads(target, index, sub, tid, now, t, ops[..m]);
      RunReads(target, index, sub, tid, now, t, ops'[..m]);
      ReadingIsInRead(tr, ReadRequest(index, sub, tid), tid);
      ReadingIsInRead(tr', ReadRequest(index, sub, tid), tid);
      StepIgnoresSize(tr.conn, tr'.conn, ops[m], ops'[m]);
      AdvanceConn(tr, ops[m]);
      AdvanceConn(tr', ops'[m]);
      SentByAdvance(tr, ops[m]);
      SentByAdvance(tr', ops'[m]);
    }
  }

  /** Only asking for a request adds to the new frames. */
  lemma {:induction false} SentByAdvance(tr: Trace, op: Op)
    requires Valid(tr.conn)
    ensures Advance(tr, op).sent
         == tr.sent + if op.Poll? && Step(tr.conn, op).1.Some? then [Step(tr.conn, op).1.value] else []
  {}
}
