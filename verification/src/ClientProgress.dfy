/** Progress of a client connection: a server that answers gets everything, and where a read can hang. */
module ClientProgress {
  import opened Wrappers
  import opened SdoCommands
  import opened ConciseDcf
  import opened Bytes
  import opened ClientSteps
  import opened WriteFrames
  import opened ClientRuns

  /** The answer of a server that acknowledges the outstanding frame and numbers its own correctly. */
  function Answer(c: Conn): SequenceHeader
    requires c.last.Some?
  {
    if c.state.Opening? then
      SequenceHeader(c.last.value.seqHeader.ssnr, RInitialization, ExpectedSsnr(c), SInitialization)
    else SequenceHeader(c.last.value.seqHeader.ssnr, RConnectionValid, ExpectedSsnr(c), SConnectionValid)
  }

  /** One request and its answer: the connection afterwards and the write frames sent. */
  function Exchange(c: Conn, now: nat, t: Timing, reply: SdoCommand): (r: (Conn, seq<SdoCommand>))
    requires Valid(c)
    ensures Valid(r.0)
  {
    var (c1, out) := Step(c, Poll(now, t));
    if c1.last.None? then (c1, Writes(out))
    else (Step(c1, Response(Answer(c1), reply)).0, Writes(out))
  }

  function Exchanges(c: Conn, n: nat, now: nat, t: Timing, reply: SdoCommand): (r: (Conn, seq<SdoCommand>))
    requires Valid(c)
    ensures Valid(r.0)
    decreases n
  {
    if n == 0 then (c, [])
    else
      var (c1, first) := Exchange(c, now, t, reply);
      var (c2, others) := Exchanges(c1, n - 1, now, t, reply);
      (c2, first + others)
  }

  /** Between two exchanges of a download, with bytes of the current entry left. */
  predicate Progressing(c: Conn) {
    && Valid(c) && Sane(c) && c.last.None?
    && (c.state.Established? || c.state.DownloadInProgress?) && c.buffer != [] && c.offset < c.total
  }

  lemma {:induction false} ProgressingHasTodo(c: Conn)
    requires Progressing(c)
    ensures Todo(c) != []
  {
    assert FramesFrom(c.buffer, c.offset, c.tid) != [];
  }

  lemma {:induction false} SegmentSent(c: Conn, now: nat, t: Timing)
    requires Progressing(c)
    ensures var (c1, out) := Step(c, Poll(now, t));
            && c1.state.DownloadInProgress? && c1.last.Some? && Sane(c1)
            && Todo(c) != [] && Writes(out) == [Todo(c)[0]] && Todo(c1) == Todo(c)[1..]
  {
    PollOfSegment(c, now, t);
    ProgressingHasTodo(c);
    var (c1, out) := Step(c, Poll(now, t));
    assert WriteCommand(c.buffer, c.offset, c.tid).payload != [];
    assert |Writes(out)| == 1;
    assert Writes(out) + Todo(c1) == Todo(c);
    assert Todo(c)[1..] == Todo(c1);
  }

  lemma {:induction false} MiddleAnswered(c: Conn, reply: SdoCommand)
    requires Valid(c) && Sane(c) && c.state.DownloadInProgress? && c.last.Some? && !reply.header.isAborted
             && c.offset < c.total
    ensures var c' := Step(c, Response(Answer(c), reply)).0;
            Todo(c') == Todo(c) != [] && Progressing(c')
  {
    var c' := Step(c, Response(Answer(c), reply)).0;
    assert c' == Taken(c, Answer(c));
    assert Progressing(c');
    ProgressingHasTodo(c');
  }

  lemma {:induction false} EndAnswered(c: Conn, reply: SdoCommand)
    requires Valid(c) && Sane(c) && c.state.DownloadInProgress? && c.last.Some? && !reply.header.isAborted
             && c.offset >= c.total
    ensures var c' := Step(c, Response(Answer(c), reply)).0;
            && Todo(c') == Todo(c)
            && if Prepared(Taken(c, Answer(c))).1 then Progressing(c')
               else Todo(c) == [] && c'.state.Closed? && c'.last.None?
  {
    var op := Response(Answer(c), reply);
    EndOfEntry(c, Answer(c), reply);
    assert NewWrites(c, op) == [];
    assert [] + Todo(Step(c, op).0) == Todo(Step(c, op).0);
    if !Prepared(Taken(c, Answer(c))).1 {
      assert Completes(c, op);
    }
  }

  lemma {:induction false} SegmentAnswered(c: Conn, reply: SdoCommand)
    requires Valid(c) && Sane(c) && c.state.DownloadInProgress? && c.last.Some? && !reply.header.isAborted
    ensures var c' := Step(c, Response(Answer(c), reply)).0;
            && Todo(c') == Todo(c)
            && if Todo(c) == [] then c'.state.Closed? && c'.last.None? else Progressing(c')
  {
    if c.offset >= c.total {
      EndAnswered(c, reply);
      if Prepared(Taken(c, Answer(c))).1 { ProgressingHasTodo(Step(c, Response(Answer(c), reply)).0); }
    } else {
      MiddleAnswered(c, reply);
    }
  }

  /** Each exchange of a download delivers exactly the next frame; the last one closes the connection. */
  lemma {:induction false} OneExchange(c: Conn, now: nat, t: Timing, reply: SdoCommand)
    requires Progressing(c) && !reply.header.isAborted
    ensures var (c', sent) := Exchange(c, now, t, reply);
            && Todo(c) != [] && sent == [Todo(c)[0]] && Todo(c') == Todo(c)[1..]
            && if Todo(c)[1..] == [] then c'.state.Closed? else Progressing(c')
  {
    SegmentSent(c, now, t);
    SegmentAnswered(Step(c, Poll(now, t)).0, reply);
  }

  /** One exchange and the rest of them. */
  lemma {:induction false} ExchangesSplit(c: Conn, n: nat, now: nat, t: Timing, reply: SdoCommand)
    requires Valid(c) && n > 0
    ensures var (c1, first) := Exchange(c, now, t, reply);
            var (c2, others) := Exchanges(c1, n - 1, now, t, reply);
            Exchanges(c, n, now, t, reply) == (c2, first + others)
  {}

  lemma JoinFirst(todo: seq<SdoCommand>, first: seq<SdoCommand>, others: seq<SdoCommand>)
    requires todo != [] && first == [todo[0]] && others == todo[1..]
    ensures first + others == todo && |others| == |todo| - 1
  {}

  lemma {:induction false} AllExchanges(c: Conn, n: nat, now: nat, t: Timing, reply: SdoCommand)
    requires Progressing(c) && !reply.header.isAborted && n == |Todo(c)|
    ensures var (c', sent) := Exchanges(c, n, now, t, reply);
            c'.state.Closed? && sent == Todo(c)
    decreases n
  {
    OneExchange(c, now, t, reply);
    ExchangesSplit(c, n, now, t, reply);
    var (c1, first) := Exchange(c, now, t, reply);
    JoinFirst(Todo(c), first, Todo(c1));
    if n > 1 {
      AllExchanges(c1, n - 1, now, t, reply);
    }
  }

  /**
   * Against a server that answers every frame, a started download opens with one exchange and
   * then delivers everything, one frame per exchange, and closes.
   */
  lemma {:induction false} AnsweredDownloadCompletes(c: Conn, now: nat, t: Timing, reply: SdoCommand)
    requires Valid(c) && Sane(c) && c.state.Opening? && c.last.None? && c.pending.None? && !reply.header.isAborted
    requires c.buffer == [] ==> c.job.None?
    ensures var opening := Exchange(c, now, t, reply);
            var rest := Exchanges(opening.0, if Todo(c) == [] then 1 else |Todo(c)|, now, t, reply);
            && opening.0.state.Established? && opening.1 == []
            && rest.0.state.Closed? && rest.1 == Todo(c)
  {
    var c1 := Exchange(c, now, t, reply).0;
    assert c1.state.Established? && c1.last.None? && c1.buffer == c.buffer && c1.job == c.job
           && c1.offset == c.offset && c1.tid == c.tid;
    assert Todo(c1) == Todo(c);
    if c.buffer != [] {
      assert Progressing(c1);
      ProgressingHasTodo(c1);
      AllExchanges(c1, |Todo(c1)|, now, t, reply);
    } else {
      assert Todo(c) == [];
      var (c2, out) := Step(c1, Poll(now, t));
      assert c2.state.Closed? && out == None;
      assert Exchanges(c1, 1, now, t, reply).0 == c2;
    }
  }

  // ---- A read that hangs ----

  /** Waiting for the answer to a read with nothing outstanding. */
  predicate Hangs(c: Conn) { c.state.UploadInit? && c.last.None? }

  /** Such a connection never sends, times out or closes again, whatever happens. */
  lemma {:induction false} HangsForever(c: Conn, ops: seq<Op>)
    requires Valid(c) && Hangs(c)
    ensures Run(Start(c), ops) == Start(c)
  {
    if ops != [] { HangsForever(c, ops[..|ops| - 1]); }
  }

  /**
   * A waiting read comes to hang exactly when the frame that acknowledges its request repeats
   * the last server number; every other step leaves it waiting with its timer running, or ends it.
   */
  lemma HangsExactly(c: Conn, op: Op)
    requires Valid(c) && c.state.UploadInit? && c.last.Some?
    ensures Hangs(Step(c, op).0) <==> op.Response? && Acknowledges(c, op.header) && op.header.ssnr == c.rsn
  {}

  /**
   * No other busy connection can get stuck: one with nothing outstanding either does something
   * when it is asked for a request, or hangs.
   */
  lemma {:induction false} StuckExactly(c: Conn, now: nat, t: Timing)
    requires Valid(c) && !IsIdle(c) && c.last.None?
    ensures Step(c, Poll(now, t)) == (c, None) <==> Hangs(c)
  {
    if c.state.Established? && c.buffer == [] && c.pending.None? && Prepared(c).1 {
      RecursionIsOneDeep(c, now, t);
    }
  }

  /** The answers to a read's opening and, with the same number again, to its request. */
  function Accepting(): Op {
    Response(SequenceHeader(0, RInitialization, 0, SInitialization), SdoCommand(DefaultHeader(1), None, []))
  }

  function Repeating(): Op {
    Response(SequenceHeader(1, RConnectionValid, 0, SConnectionValid), SdoCommand(DefaultHeader(1), None, []))
  }

  /** A read on its way into the hang: opening, acceptance, request, and a server frame that repeats its number. */
  lemma {:induction false} StepsToHang(target: u8, index: u16, sub: u8, tid: u8, now: nat, t: Timing)
    ensures var c := ReadStarted(NewConn(target), index, sub, tid, now, t).0;
            && Valid(c)
            && var c1 := Step(c, Poll(now, t)).0;
               var c2 := Step(c1, Accepting()).0;
               var c3 := Step(c2, Poll(now, t)).0;
               var c4 := Step(c3, Repeating()).0;
               && c1.state.Opening? && c2.state.Established? && c3.state.UploadInit?
               && Hangs(c4)
  {
    StartedIsValid(NewConn(target), [], Entry(index, sub, []), tid, now, t);
    var c := ReadStarted(NewConn(target), index, sub, tid, now, t).0;
    var c1 := Step(c, Poll(now, t)).0;
    assert c1.last.Some? && c1.last.value.seqHeader.ssnr == 0 && c1.ssn == 1 && c1.rsn == 63;
    var c2 := Step(c1, Accepting()).0;
    assert c2.last.None? && c2.ssn == 1 && c2.rsn == 0 && c2.buffer == [] && c2.pending.Some?;
    var c3 := Step(c2, Poll(now, t)).0;
    assert c3.last.Some? && c3.last.value.seqHeader.ssnr == 1 && c3.rsn == 0;
  }

  /** So every read has a run that hangs. */
  lemma {:induction false} EveryReadCanHang(target: u8, index: u16, sub: u8, tid: u8, now: nat, t: Timing)
    ensures var c := ReadStarted(NewConn(target), index, sub, tid, now, t).0;
            Valid(c) && Hangs(Run(Start(c), [Poll(now, t), Accepting(), Poll(now, t), Repeating()]).conn)
  {
    var c := ReadStarted(NewConn(target), index, sub, tid, now, t).0;
    StepsToHang(target, index, sub, tid, now, t);
    var poll := Poll(now, t);
    ConnAfter(c, [], poll);
    ConnAfter(c, [poll], Accepting());
    ConnAfter(c, [poll, Accepting()], poll);
    ConnAfter(c, [poll, Accepting(), poll], Repeating());
    assert [] + [poll] == [poll] && [poll] + [Accepting()] == [poll, Accepting()];
    assert [poll, Accepting()] + [poll] == [poll, Accepting(), poll];
    assert [poll, Accepting(), poll] + [Repeating()] == [poll, Accepting(), poll, Repeating()];
  }

  lemma {:induction false} ConnAfter(c: Conn, ops: seq<Op>, op: Op)
    requires Valid(c)
    ensures Run(Start(c), ops + [op]).conn == Step(Run(Start(c), ops).conn, op).0
  {
    RunSnoc(c, ops, op);
    AdvanceConn(Run(Start(c), ops), op);
  }
}
