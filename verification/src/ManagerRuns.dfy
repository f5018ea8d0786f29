/**
 * Whole runs of the client manager: every connection in the map is the run of one transfer from a
 * fresh start, so no transfer sends anything left over by an earlier one.
 */
module ManagerRuns {
  import opened Wrappers
  import opened Bytes
  import opened SdoCommands
  import opened ConciseDcf
  import opened ClientSteps
  import opened WriteFrames
  import opened ClientRuns
  import opened ClientManagers
  import opened ClientProgress

  // ---- The serving loop, node by node ----

  /** What serving from a node on does, said without the loop. */
  ghost predicate ServesExactly(m: Conns, steps: map<u8, Outcome>, id: nat, m': Conns, out: Option<(u8, Frame)>)
    requires steps.Keys == m.Keys
  {
    && m'.Keys == m.Keys
    && match out
       case None =>
         forall i :: i in m ==> if i < id then m'[i] == m[i] else steps[i] == (m'[i], None)
       case Some((k, f)) =>
         && k in m && id <= k && steps[k] == (m'[k], Some(f))
         && forall i :: i in m && i != k ==> if i < id || k < i then m'[i] == m[i] else steps[i] == (m'[i], None)
  }

  /**
   * Serving lets the nodes act in ascending order up to the first that has a frame to send; it
   * sends that frame, and the nodes behind it are left alone.
   */
  lemma {:induction false} ServeExact(m: Conns, steps: map<u8, Outcome>, id: nat)
    requires steps.Keys == m.Keys && id <= 0x100
    ensures ServesExactly(m, steps, id, ServeFrom(m, steps, id).0, ServeFrom(m, steps, id).1)
    decreases 0x100 - id
  {
    if id == 0x100 {
    } else if id !in m {
      ServeExact(m, steps, id + 1);
    } else if steps[id].1.None? {
      ServeExact(m[id := steps[id].0], steps, id + 1);
    }
  }

  // ---- Deadlines ----

  /** No connection of the map is closed. */
  ghost predicate NoneClosed(m: Conns) { forall i :: i in m ==> !m[i].state.Closed? }

  lemma TickIsSilentBefore(c: Conn, now: nat, t: Timing)
    requires Valid(c)
    ensures Step(c, Tick(now, t)) == (c, None) <==> !Expired(c, now)
  {}

  lemma {:induction false} ServedIsSilent(m: Conns, steps: map<u8, Outcome>)
    requires NoneClosed(m) && steps.Keys == m.Keys
    ensures ServedAs(m, steps) == (m, None) <==> forall i :: i in m ==> steps[i] == (m[i], None)
  {
    ServeExact(m, steps, 0);
    var (m', out) := ServeFrom(m, steps, 0);
    if forall i :: i in m ==> steps[i] == (m[i], None) {
      assert out.None?;
      assert m' == m;
      assert Pruned(m) == m;
    }
    if ServedAs(m, steps) == (m, None) {
      forall i | i in m ensures steps[i] == (m[i], None) {
        assert i in Pruned(m') && Pruned(m')[i] == m'[i];
      }
    }
  }

  /**
   * A timeout check does something exactly when some deadline has passed, so nothing is missed
   * by a caller that sleeps until the earliest one.
   */
  lemma {:induction false} TickActsExactly(m: Conns, now: nat, t: Timing)
    requires AllValid(m) && NoneClosed(m)
    ensures Served(m, Tick(now, t)) == (m, None) <==> forall i :: i in m ==> !Expired(m[i], now)
  {
    ServedIsSilent(m, Steps(m, Tick(now, t)));
    forall i | i in m ensures Steps(m, Tick(now, t))[i] == (m[i], None) <==> !Expired(m[i], now) {
      TickIsSilentBefore(m[i], now, t);
    }
  }

  // ---- Runs of the manager ----

  datatype Order = Configure(data: seq<u8>) | ReadObject(index: u16, sub: u8) | WriteObject(entry: Entry)

  function Begun(c: Conn, o: Order, tid: u8, now: nat, t: Timing): (Conn, Result<(), Error>) {
    match o
    case Configure(data) => DcfStarted(c, data, tid, now, t)
    case ReadObject(index, sub) => ReadStarted(c, index, sub, tid, now, t)
    case WriteObject(e) => WriteStarted(c, e, tid, now, t)
  }

  /** Idle connections accept everything but a configuration without its entry count. */
  predicate Acceptable(o: Order) { o.Configure? ==> |o.data| >= 4 }

  datatype Act =
    | Request(node: u8, order: Order, now: nat, timing: Timing)
    | Reply(source: u8, header: SequenceHeader, cmd: SdoCommand)
    | CheckTimeouts(now: nat, timing: Timing)
    | AskForRequest(now: nat, timing: Timing)

  /** An accepted transfer. */
  datatype Transfer = Transfer(order: Order, tid: u8, now: nat, timing: Timing)

  /**
   * The manager, and what an observer has seen of each node: the transfer that was accepted last
   * and the frames handed out for it since, apart from those sent again.
   */
  datatype World = World(manager: ManagerState, transfers: map<u8, Transfer>, sent: map<u8, seq<Frame>>)

  function EmptyWorld(): World { World(ManagerState(map[], 0), map[], map[]) }

  ghost function AfterSteps(w: World, steps: map<u8, Outcome>, poll: bool): World {
    var (m', out) := ServedAs(w.manager.conns, steps);
    World(w.manager.(conns := m'), w.transfers,
          match out
          case Some((k, f)) => if poll && k in w.sent then w.sent[k := w.sent[k] + [f]] else w.sent
          case None => w.sent)
  }

  ghost function AfterServing(w: World, op: Op): World
    requires AllValid(w.manager.conns)
  {
    AfterSteps(w, Steps(w.manager.conns, op), op.Poll?)
  }

  /** A request leaves the connection c behind and, if it is accepted, starts a new record of the node. */
  function AfterBegun(w: World, node: u8, j: Transfer, c: Conn, accepted: bool): World {
    World(ManagerState(w.manager.conns[node := c], j.tid),
          if accepted then w.transfers[node := j] else w.transfers,
          if accepted then w.sent[node := []] else w.sent)
  }

  function AfterRequest(w: World, node: u8, o: Order, now: nat, t: Timing): World {
    var tid := NextTid(w.manager.nextTid);
    var (c, r) := Begun(ConnFor(w.manager.conns, node), o, tid, now, t);
    AfterBegun(w, node, Transfer(o, tid, now, t), c, r.Ok?)
  }

  ghost function AfterAct(w: World, a: Act): World
    requires AllValid(w.manager.conns)
  {
    match a
    case Request(node, o, now, t) => AfterRequest(w, node, o, now, t)
    case Reply(source, h, cmd) => w.(manager := w.manager.(conns := AfterResponse(w.manager.conns, source, h, cmd)))
    case CheckTimeouts(now, t) => AfterServing(w, Op.Tick(now, t))
    case AskForRequest(now, t) => AfterServing(w, Op.Poll(now, t))
  }

  /** A transfer as it starts on a connection that has never been used. */
  function Origin(node: u8, j: Transfer): Conn { Begun(NewConn(node), j.order, j.tid, j.now, j.timing).0 }

  /** A run that has sent the frames recorded for a node and ends in its connection, or closed. */
  ghost predicate EndsAt(w: World, i: u8, run: Trace)
    requires i in w.sent
  {
    && run.sent == w.sent[i]
    && if i in w.manager.conns && !w.manager.conns[i].state.Idle? then w.manager.conns[i] == run.conn
       else run.conn.state.Closed?
  }

  /** The transfer of a node and a run of it that explains its connection, if any, and its frames. */
  ghost predicate Explains(w: World, i: u8, ops: seq<Op>)
    requires i in w.transfers && i in w.sent
  {
    var j := w.transfers[i];
    && j.tid != 0 && Acceptable(j.order)
    && Valid(Origin(i, j)) && Sane(Origin(i, j))
    && EndsAt(w, i, Run(Start(Origin(i, j)), ops))
  }

  ghost predicate Explained(w: World, i: u8)
    requires i in w.transfers && i in w.sent
  {
    exists ops: seq<Op> :: Explains(w, i, ops)
  }

  /** A connection in the map is in use, or as good as new. */
  predicate InUseOrNew(c: Conn, i: u8, busy: bool) {
    Valid(c) && c.target == i && !c.state.Closed? && (c.state.Idle? ==> c == NewConn(i)) && (!c.state.Idle? ==> busy)
  }

  /** What every run of the manager keeps. */
  ghost predicate Tidy(w: World) {
    && w.transfers.Keys == w.sent.Keys
    && (forall i :: i in w.manager.conns ==> InUseOrNew(w.manager.conns[i], i, i in w.transfers))
    && (forall i :: i in w.transfers ==> Explained(w, i))
  }

  lemma TidyIsValid(w: World)
    requires Tidy(w)
    ensures AllValid(w.manager.conns) && NoneClosed(w.manager.conns)
  {
    forall i | i in w.manager.conns ensures Valid(w.manager.conns[i]) && !w.manager.conns[i].state.Closed? {
      assert InUseOrNew(w.manager.conns[i], i, i in w.transfers);
    }
  }

  /** A fresh start opens the connection. */
  lemma OriginOpens(i: u8, j: Transfer)
    requires Acceptable(j.order)
    ensures var c := Origin(i, j);
            Valid(c) && Sane(c) && c.state.Opening? && c.target == i && c.ssn == 0 && c.rsn == 63 && c.last.None?
  {
    match j.order {
      case Configure(data) =>
        DcfTodo(i, data, j.tid, j.now, j.timing);
        DcfStartedInSteps(NewConn(i), data, j.tid, j.now, j.timing);
        PreparedIsValid(Opened(NewConn(i), data, j.tid));
      case ReadObject(index, sub) =>
        StartedIsValid(NewConn(i), [], Entry(index, sub, []), j.tid, j.now, j.timing);
      case WriteObject(e) =>
        StartedIsValid(NewConn(i), [], e, j.tid, j.now, j.timing);
    }
  }

  /** A step keeps the target and never leads back to Idle; an idle connection does not move. */
  predicate Lawful(c: Conn, next: Outcome) {
    && Valid(next.0) && next.0.target == c.target
    && if c.state.Idle? then next == (c, None) else !next.0.state.Idle?
  }

  lemma StepIsLawful(c: Conn, op: Op)
    requires Valid(c)
    ensures Lawful(c, Step(c, op))
  {
    if op.Poll? && c.last.None? && c.state.Established? && c.buffer == [] && c.pending.None? && Prepared(c).1 {
      RecursionIsOneDeep(c, op.now, op.timing);
    }
  }

  /** The node behind its step in a new world: the frame handed out is recorded, and a closed connection is gone. */
  ghost predicate Stepped(w: World, w': World, i: u8, next: Outcome, poll: bool)
    requires i in w.sent && i in w'.sent
  {
    && w'.sent[i] == w.sent[i] + (if poll && next.1.Some? then [next.1.value] else [])
    && if next.0.state.Closed? then i !in w'.manager.conns else i in w'.manager.conns && w'.manager.conns[i] == next.0
  }

  /** A run that is one step longer ends where the node is behind that step. */
  lemma {:induction false} StepEnds(w: World, w': World, i: u8, run: Trace, run': Trace, next: Outcome, poll: bool)
    requires i in w.sent && i in w'.sent && EndsAt(w, i, run) && Stepped(w, w', i, next, poll)
    requires !next.0.state.Idle? && run'.conn == next.0
    requires run'.sent == run.sent + if poll && next.1.Some? then [next.1.value] else []
    ensures EndsAt(w', i, run')
  {}

  /** What one more step does to the connection and the frames of a run. */
  lemma {:induction false} RunStep(c: Conn, ops: seq<Op>, op: Op)
    requires Valid(c)
    ensures var r, r' := Run(Start(c), ops), Run(Start(c), ops + [op]);
            var next := Step(r.conn, op);
            r'.conn == next.0 && r'.sent == r.sent + if op.Poll? && next.1.Some? then [next.1.value] else []
  {
    RunSnoc(c, ops, op);
    AdvanceConn(Run(Start(c), ops), op);
  }

  lemma {:induction false} SteppedIsExplained(w: World, w': World, i: u8, op: Op)
    requires Tidy(w) && w'.transfers == w.transfers && w'.sent.Keys == w.sent.Keys
    requires i in w.manager.conns && !w.manager.conns[i].state.Idle? && i in w.transfers
    requires Valid(w.manager.conns[i]) && Stepped(w, w', i, Step(w.manager.conns[i], op), op.Poll?)
    ensures Explained(w', i)
  {
    var ops: seq<Op> :| Explains(w, i, ops);
    var c0 := Origin(i, w.transfers[i]);
    RunStep(c0, ops, op);
    StepIsLawful(w.manager.conns[i], op);
    StepEnds(w, w', i, Run(Start(c0), ops), Run(Start(c0), ops + [op]), Step(w.manager.conns[i], op), op.Poll?);
    assert Explains(w', i, ops + [op]);
  }

  /** A node whose transfer, frames and connection are as before stays explained. */
  lemma UntouchedIsExplained(w: World, w': World, i: u8)
    requires Tidy(w) && i in w.transfers && i in w'.transfers && i in w'.sent
    requires w'.transfers[i] == w.transfers[i] && w'.sent[i] == w.sent[i]
    requires i in w'.manager.conns <==> i in w.manager.conns
    requires i in w.manager.conns ==> w'.manager.conns[i] == w.manager.conns[i]
    ensures Explained(w', i)
  {
    var ops: seq<Op> :| Explains(w, i, ops);
    assert Explains(w', i, ops);
  }

  /** Serving leaves a node alone or makes its step, and it touches nothing but connections and frames. */
  lemma {:induction false} ServedStep(w: World, steps: map<u8, Outcome>, poll: bool, i: u8)
    requires steps.Keys == w.manager.conns.Keys && i in w.sent
    requires i in w.manager.conns ==> !w.manager.conns[i].state.Closed?
    ensures var w' := AfterSteps(w, steps, poll);
            && w'.transfers == w.transfers && w'.sent.Keys == w.sent.Keys
            && if i in w.manager.conns then
                 || (i in w'.manager.conns && w'.manager.conns[i] == w.manager.conns[i] && w'.sent[i] == w.sent[i])
                 || Stepped(w, w', i, steps[i], poll)
               else i !in w'.manager.conns && w'.sent[i] == w.sent[i]
  {
    ServeExact(w.manager.conns, steps, 0);
  }

  lemma {:induction false} ServedConn(w: World, steps: map<u8, Outcome>, poll: bool, i: u8)
    requires steps.Keys == w.manager.conns.Keys
    requires i in AfterSteps(w, steps, poll).manager.conns
    ensures i in w.manager.conns
    ensures var c' := AfterSteps(w, steps, poll).manager.conns[i];
            !c'.state.Closed? && (c' == w.manager.conns[i] || c' == steps[i].0)
  {
    ServeExact(w.manager.conns, steps, 0);
  }

  lemma {:induction false} ServingKeepsTidy(w: World, op: Op)
    requires Tidy(w) && AllValid(w.manager.conns) && !op.Response?
    ensures Tidy(AfterServing(w, op))
  {
    var w', steps := AfterServing(w, op), Steps(w.manager.conns, op);
    forall i | i in w.manager.conns
      ensures InUseOrNew(w.manager.conns[i], i, i in w.transfers) && Lawful(w.manager.conns[i], steps[i])
    {
      StepIsLawful(w.manager.conns[i], op);
    }
    forall i | i in w'.manager.conns ensures InUseOrNew(w'.manager.conns[i], i, i in w'.transfers) {
      ServedConn(w, steps, op.Poll?, i);
    }
    assert w'.sent.Keys == w.sent.Keys;
    forall i | i in w'.transfers ensures Explained(w', i) {
      NodeStaysExplained(w, op, i);
    }
  }

  lemma {:induction false} NodeStaysExplained(w: World, op: Op, i: u8)
    requires Tidy(w) && AllValid(w.manager.conns) && !op.Response? && i in w.transfers
    ensures i in AfterServing(w, op).transfers && i in AfterServing(w, op).sent
    ensures exists ops: seq<Op> :: Explains(AfterServing(w, op), i, ops)
  {
    var w', steps := AfterServing(w, op), Steps(w.manager.conns, op);
    if i in w.manager.conns {
      assert InUseOrNew(w.manager.conns[i], i, true);
      StepIsLawful(w.manager.conns[i], op);
      assert steps[i] == Step(w.manager.conns[i], op);
    }
    ServedStep(w, steps, op.Poll?, i);
    if i in w.manager.conns && !w.manager.conns[i].state.Idle? && Stepped(w, w', i, steps[i], op.Poll?) {
      SteppedIsExplained(w, w', i, op);
    } else {
      UntouchedIsExplained(w, w', i);
    }
  }

  lemma {:induction false} ReplyKeepsTidy(w: World, source: u8, h: SequenceHeader, cmd: SdoCommand)
    requires Tidy(w) && AllValid(w.manager.conns)
    ensures Tidy(AfterAct(w, Reply(source, h, cmd)))
  {
    var w' := AfterAct(w, Reply(source, h, cmd));
    if source in w.manager.conns {
      StepIsLawful(w.manager.conns[source], Op.Response(h, cmd));
      ReplyReplaces(w, source, Step(w.manager.conns[source], Op.Response(h, cmd)), w');
      ReplyKeepsInUse(w, source, Step(w.manager.conns[source], Op.Response(h, cmd)), w');
      RestIsExplained(w, w', source);
      if source in w.transfers {
        SourceIsExplained(w, w', source, Op.Response(h, cmd));
      }
    } else {
      assert w' == w;
    }
  }

  lemma {:induction false} SourceIsExplained(w: World, w': World, source: u8, op: Op)
    requires Tidy(w) && source in w.transfers && source in w.manager.conns && !op.Poll?
             && Valid(w.manager.conns[source])
    requires w'.transfers == w.transfers && w'.sent == w.sent
    requires Stepped(w, w', source, Step(w.manager.conns[source], op), false)
    requires w.manager.conns[source].state.Idle? ==> w' == w
    ensures Explained(w', source)
  {
    if w.manager.conns[source].state.Idle? {
      UntouchedIsExplained(w, w', source);
    } else {
      SteppedIsExplained(w, w', source, op);
    }
  }

  /** Worlds that agree on all nodes but one. */
  ghost predicate AgreeExcept(w: World, w': World, x: u8) {
    forall i: u8 :: i != x ==>
      && (i in w.transfers <==> i in w'.transfers) && (i in w.transfers ==> w'.transfers[i] == w.transfers[i])
      && (i in w.sent <==> i in w'.sent) && (i in w.sent ==> w'.sent[i] == w.sent[i])
      && (i in w.manager.conns <==> i in w'.manager.conns)
      && (i in w.manager.conns ==> w'.manager.conns[i] == w.manager.conns[i])
  }

  lemma {:induction false} RestIsExplained(w: World, w': World, x: u8)
    requires Tidy(w) && AgreeExcept(w, w', x)
    ensures forall i :: i in w'.transfers && i != x ==> i in w'.sent && Explained(w', i)
    ensures forall i :: i in w'.manager.conns && i != x ==> InUseOrNew(w'.manager.conns[i], i, i in w'.transfers)
  {
    forall i | i in w'.transfers && i != x ensures i in w'.sent && Explained(w', i) {
      UntouchedIsExplained(w, w', i);
    }
    forall i | i in w'.manager.conns && i != x ensures InUseOrNew(w'.manager.conns[i], i, i in w'.transfers) {
      assert InUseOrNew(w.manager.conns[i], i, i in w.transfers);
    }
  }

  /** Replacing one connection by its next state, or taking it out when that is closed, keeps the others as they are. */
  lemma {:induction false} ReplyReplaces(w: World, source: u8, next: Outcome, w': World)
    requires source in w.manager.conns && w'.transfers == w.transfers && w'.sent == w.sent
    requires w'.manager.conns ==
             if next.0.state.Closed? then w.manager.conns - {source} else w.manager.conns[source := next.0]
    ensures AgreeExcept(w, w', source)
    ensures next.1.None? && source in w.sent ==> Stepped(w, w', source, next, false)
  {}

  lemma {:induction false} ReplyKeepsInUse(w: World, source: u8, next: Outcome, w': World)
    requires Tidy(w) && source in w.manager.conns && Lawful(w.manager.conns[source], next) && next.1.None?
    requires w'.transfers == w.transfers && w'.sent == w.sent && w'.manager.nextTid == w.manager.nextTid
    requires w'.manager.conns ==
             if next.0.state.Closed? then w.manager.conns - {source} else w.manager.conns[source := next.0]
    ensures source in w'.manager.conns ==> InUseOrNew(w'.manager.conns[source], source, source in w'.transfers)
    ensures w.manager.conns[source].state.Idle? ==> w' == w
  {
    assert InUseOrNew(w.manager.conns[source], source, source in w.transfers);
  }

  /**
   * A request is accepted on a connection as good as new, or changes nothing but the counter and an unused
   * connection.
   */
  lemma {:induction false} BegunOnTidy(w: World, node: u8, j: Transfer)
    requires Tidy(w) && j.tid != 0
    ensures var c := ConnFor(w.manager.conns, node);
            var (c', r) := Begun(c, j.order, j.tid, j.now, j.timing);
            && InUseOrNew(c, node, node in w.transfers)
            && (r.Ok? ==>
                  && c == NewConn(node) && c' == Origin(node, j)
                  && Valid(c') && c'.state.Opening? && c'.target == node && Sane(c'))
            && (r.Err? ==> c' == c)
  {
    var c := ConnFor(w.manager.conns, node);
    if node in w.manager.conns { assert InUseOrNew(c, node, node in w.transfers); } else { NewIsValid(node); }
    if Begun(c, j.order, j.tid, j.now, j.timing).1.Ok? {
      OriginOpens(node, j);
    }
  }

  lemma {:induction false} RequestKeepsTidy(w: World, node: u8, o: Order, now: nat, t: Timing)
    requires Tidy(w)
    ensures Tidy(AfterRequest(w, node, o, now, t))
  {
    var j := Transfer(o, NextTid(w.manager.nextTid), now, t);
    var (c, r) := Begun(ConnFor(w.manager.conns, node), o, j.tid, now, t);
    BegunOnTidy(w, node, j);
    if r.Ok? { AcceptedKeepsTidy(w, node, j); } else { RefusedKeepsTidy(w, node, j, c); }
  }

  lemma {:induction false} AcceptedKeepsTidy(w: World, node: u8, j: Transfer)
    requires Tidy(w) && j.tid != 0 && Acceptable(j.order)
    ensures Tidy(AfterBegun(w, node, j, Origin(node, j), true))
  {
    var w' := AfterBegun(w, node, j, Origin(node, j), true);
    RestIsExplained(w, w', node);
    StartIsExplained(w', node, j);
  }

  lemma {:induction false} RefusedKeepsTidy(w: World, node: u8, j: Transfer, c: Conn)
    requires Tidy(w) && c == ConnFor(w.manager.conns, node) && InUseOrNew(c, node, node in w.transfers)
    ensures Tidy(AfterBegun(w, node, j, c, false))
  {
    var w' := AfterBegun(w, node, j, c, false);
    RestIsExplained(w, w', node);
    if node in w'.transfers {
      RefusedIsExplained(w, w', node);
    }
  }

  lemma {:induction false} StartIsExplained(w: World, node: u8, j: Transfer)
    requires j.tid != 0 && Acceptable(j.order)
    requires node in w.transfers && w.transfers[node] == j && node in w.sent && w.sent[node] == []
    requires node in w.manager.conns && w.manager.conns[node] == Origin(node, j)
    ensures InUseOrNew(w.manager.conns[node], node, true)
    ensures Explained(w, node)
  {
    OriginOpens(node, j);
    assert Explains(w, node, []);
  }

  lemma {:induction false} RefusedIsExplained(w: World, w': World, node: u8)
    requires Tidy(w) && node in w.transfers && w'.transfers == w.transfers && w'.sent == w.sent
    requires node in w'.manager.conns && w'.manager.conns[node] == ConnFor(w.manager.conns, node)
    ensures Explained(w', node)
  {
    var ops: seq<Op> :| Explains(w, node, ops);
    assert Explains(w', node, ops);
  }

  /**
   * Every operation of the manager keeps the map tidy: no closed connections, each under its own
   * node, idle ones as good as new, and each one in use is where some run of its own transfer from a
   * never-used connection leads, having sent exactly the frames of that run.
   */
  lemma ActsKeepTidy(w: World, a: Act)
    requires Tidy(w) && AllValid(w.manager.conns)
    ensures Tidy(AfterAct(w, a)) && AllValid(AfterAct(w, a).manager.conns)
  {
    match a {
      case Request(node, o, now, t) => RequestKeepsTidy(w, node, o, now, t);
      case Reply(source, h, cmd) => ReplyKeepsTidy(w, source, h, cmd);
      case CheckTimeouts(now, t) => ServingKeepsTidy(w, Op.Tick(now, t));
      case AskForRequest(now, t) => ServingKeepsTidy(w, Op.Poll(now, t));
    }
    TidyIsValid(AfterAct(w, a));
  }

  ghost function AfterActs(acts: seq<Act>): (w: World)
    ensures Tidy(w) && AllValid(w.manager.conns)
  {
    if acts == [] then EmptyWorld()
    else
      var before := AfterActs(acts[..|acts| - 1]);
      ActsKeepTidy(before, acts[|acts| - 1]);
      AfterAct(before, acts[|acts| - 1])
  }

  // ---- What that means for a transfer ----

  /** All write frames of a transfer, given only what was asked for. */
  function Ordered(j: Transfer): seq<SdoCommand> {
    match j.order
    case Configure(data) => if |data| < 4 then [] else JobFrames(ParseAll(data, 4, EntryCount(data)), j.tid)
    case ReadObject(_, _) => []
    case WriteObject(e) => FramesOf(WritePayload(e), j.tid)
  }

  lemma OriginOwesOrdered(i: u8, j: Transfer)
    requires Acceptable(j.order)
    ensures Valid(Origin(i, j)) && Todo(Origin(i, j)) == Ordered(j)
  {
    OriginOpens(i, j);
    match j.order {
      case Configure(data) => DcfTodo(i, data, j.tid, j.now, j.timing);
      case ReadObject(_, _) =>
      case WriteObject(e) =>
        assert FramesOf(WritePayload(e), j.tid) + [] == FramesOf(WritePayload(e), j.tid);
    }
  }

  /**
   * No leakage between transfers, whatever the manager does with any number of nodes: the frames
   * handed out for a node since its last accepted request are those of a run of that very request from a
   * connection never used before. Their writes are a prefix of the frames of the request, and all of
   * them when the connection is about to close as done.
   */
  lemma {:induction false} NoLeakage(acts: seq<Act>, i: u8)
    requires i in AfterActs(acts).transfers
    ensures var w := AfterActs(acts);
            && i in w.sent
            && Valid(Origin(i, w.transfers[i]))
            && (exists ops: seq<Op> :: Run(Start(Origin(i, w.transfers[i])), ops).sent == w.sent[i])
            && WritesIn(w.sent[i]) <= Ordered(w.transfers[i])
            && forall op: Op :: i in w.manager.conns && Completes(w.manager.conns[i], op) ==>
                 WritesIn(w.sent[i]) == Ordered(w.transfers[i])
  {
    var w := AfterActs(acts);
    var ops: seq<Op> :| Explains(w, i, ops);
    var j := w.transfers[i];
    var c0 := Origin(i, j);
    OriginOwesOrdered(i, j);
    RunConserves(c0, ops);
    var run := Run(Start(c0), ops);
    forall op: Op | i in w.manager.conns && Completes(w.manager.conns[i], op)
      ensures WritesIn(w.sent[i]) == Ordered(j)
    {
      assert InUseOrNew(w.manager.conns[i], i, true);
      StepIsLawful(w.manager.conns[i], op);
      assert w.manager.conns[i] == run.conn;
      StepConserves(run.conn, op);
      assert Todo(run.conn) == [];
      assert WritesIn(run.sent) + [] == WritesIn(run.sent);
    }
  }

  /** The entries that a transfer has to write. */
  function EntriesOf(j: Transfer): seq<Entry> {
    match j.order
    case Configure(data) => if |data| < 4 then [] else ParseAll(data, 4, EntryCount(data))
    case ReadObject(_, _) => []
    case WriteObject(e) => [e]
  }

  lemma {:induction false} OrderedReads(j: Transfer)
    ensures ReadWrites(Ordered(j)) == Some(EntriesOf(j))
  {
    match j.order {
      case Configure(data) => if |data| >= 4 { JobReads(ParseAll(data, 4, EntryCount(data)), j.tid); }
      case ReadObject(_, _) =>
      case WriteObject(e) =>
        var fs := FramesOf(WritePayload(e), j.tid);
        SizesAnnounced(WritePayload(e), j.tid);
        WriteInFront(fs, []);
        assert fs + [] == fs && fs[..|fs|] == fs && fs[|fs|..] == [];
        WriteReads(e, j.tid);
        assert [e] + [] == [e];
    }
  }

  /**
   * When the connection of a node is about to close as done, all that the manager has written to the node
   * since its last accepted request reads back as the entries of that request and no others.
   */
  lemma {:induction false} DeliveredByManager(acts: seq<Act>, i: u8, op: Op)
    requires i in AfterActs(acts).transfers && i in AfterActs(acts).manager.conns
    requires Completes(AfterActs(acts).manager.conns[i], op)
    ensures var w := AfterActs(acts);
            i in w.sent && ReadWrites(WritesIn(w.sent[i])) == Some(EntriesOf(w.transfers[i]))
  {
    NoLeakage(acts, i);
    OrderedReads(AfterActs(acts).transfers[i]);
  }

  /** Every frame handed out for a node since its last accepted request carries its place among them as its number. */
  lemma {:induction false} ManagerNumbersFrames(acts: seq<Act>, i: u8, k: nat)
    requires i in AfterActs(acts).transfers && i in AfterActs(acts).sent && k < |AfterActs(acts).sent[i]|
    ensures AfterActs(acts).sent[i][k].seqHeader.ssnr == k % 64
  {
    var w := AfterActs(acts);
    var ops: seq<Op> :| Explains(w, i, ops);
    OriginOpens(i, w.transfers[i]);
    RunStopsAndWaits(Origin(i, w.transfers[i]), ops);
  }

  // ---- A node that hangs ----

  /** The node's connection waits for the answer to a read with nothing outstanding. */
  predicate HangsAt(w: World, i: u8) { i in w.manager.conns && Hangs(w.manager.conns[i]) }

  /** Everything about a node is as it was. */
  predicate SameNode(w: World, w': World, i: u8) {
    && i in w.manager.conns && i in w'.manager.conns && w'.manager.conns[i] == w.manager.conns[i]
    && i in w.transfers && i in w'.transfers && w'.transfers[i] == w.transfers[i]
    && i in w.sent && i in w'.sent && w'.sent[i] == w.sent[i]
  }

  lemma {:induction false} HungStepIsSilent(c: Conn, op: Op)
    requires Valid(c) && Hangs(c)
    ensures Step(c, op) == (c, None)
  {}

  lemma {:induction false} HungIsBusy(c: Conn, o: Order, tid: u8, now: nat, t: Timing)
    requires Hangs(c)
    ensures Begun(c, o, tid, now, t) == (c, Err(ClientBusy))
  {}

  lemma {:induction false} HungWhenServed(w: World, op: Op, i: u8)
    requires Tidy(w) && AllValid(w.manager.conns) && HangsAt(w, i)
    ensures SameNode(w, AfterServing(w, op), i)
  {
    var steps := Steps(w.manager.conns, op);
    assert InUseOrNew(w.manager.conns[i], i, i in w.transfers);
    HungStepIsSilent(w.manager.conns[i], op);
    assert steps[i] == (w.manager.conns[i], None);
    ServedStep(w, steps, op.Poll?, i);
  }

  lemma {:induction false} HungAfterRequest(w: World, i: u8, node: u8, o: Order, now: nat, t: Timing)
    requires Tidy(w) && HangsAt(w, i)
    ensures SameNode(w, AfterRequest(w, node, o, now, t), i)
  {
    assert InUseOrNew(w.manager.conns[i], i, i in w.transfers);
    if node == i { HungIsBusy(w.manager.conns[i], o, NextTid(w.manager.nextTid), now, t); }
  }

  lemma {:induction false} HungAfterReply(w: World, i: u8, source: u8, h: SequenceHeader, cmd: SdoCommand)
    requires Tidy(w) && HangsAt(w, i)
    ensures SameNode(w, w.(manager := w.manager.(conns := AfterResponse(w.manager.conns, source, h, cmd))), i)
  {
    assert InUseOrNew(w.manager.conns[i], i, i in w.transfers);
    if source == i {
      HungStepIsSilent(w.manager.conns[i], Op.Response(h, cmd));
    }
  }

  lemma {:induction false} HungAfterTimeouts(w: World, i: u8, now: nat, t: Timing)
    requires Tidy(w) && AllValid(w.manager.conns) && HangsAt(w, i)
    ensures SameNode(w, AfterAct(w, CheckTimeouts(now, t)), i)
  {
    HungWhenServed(w, Op.Tick(now, t), i);
  }

  lemma {:induction false} HungAfterAsking(w: World, i: u8, now: nat, t: Timing)
    requires Tidy(w) && AllValid(w.manager.conns) && HangsAt(w, i)
    ensures SameNode(w, AfterAct(w, AskForRequest(now, t)), i)
  {
    HungWhenServed(w, Op.Poll(now, t), i);
  }

  lemma {:induction false} HungAfterAct(w: World, a: Act, i: u8)
    requires Tidy(w) && AllValid(w.manager.conns) && HangsAt(w, i)
    ensures SameNode(w, AfterAct(w, a), i)
  {
    match a {
      case Request(node, o, now, t) => HungAfterRequest(w, i, node, o, now, t);
      case Reply(source, h, cmd) => HungAfterReply(w, i, source, h, cmd);
      case CheckTimeouts(now, t) => HungAfterTimeouts(w, i, now, t);
      case AskForRequest(now, t) => HungAfterAsking(w, i, now, t);
    }
  }

  lemma {:induction false} AfterActsSnoc(acts: seq<Act>, a: Act)
    ensures AfterActs(acts + [a]) == AfterAct(AfterActs(acts), a)
  {
    assert (acts + [a])[..|acts|] == acts;
  }

  lemma {:induction false} TidyNodeIsSame(w: World, i: u8)
    requires Tidy(w) && HangsAt(w, i)
    ensures SameNode(w, w, i)
  {
    assert InUseOrNew(w.manager.conns[i], i, i in w.transfers);
  }

  lemma {:induction false} HungAfterOneMore(acts: seq<Act>, a: Act, i: u8)
    requires HangsAt(AfterActs(acts), i)
    ensures SameNode(AfterActs(acts), AfterActs(acts + [a]), i)
  {
    AfterActsSnoc(acts, a);
    HungAfterAct(AfterActs(acts), a, i);
  }

  /** What each world hands on to the next reaches every later one. */
  lemma {:induction false} SameAlong(ws: seq<World>, i: u8, n: nat)
    requires n < |ws| && HangsAt(ws[0], i) && SameNode(ws[0], ws[0], i)
    requires forall k :: 0 <= k < |ws| - 1 && HangsAt(ws[k], i) ==> SameNode(ws[k], ws[k + 1], i)
    ensures SameNode(ws[0], ws[n], i)
  {
    if n > 0 {
      SameAlong(ws, i, n - 1);
      assert SameNode(ws[n - 1], ws[n - 1 + 1], i);
    }
  }

  lemma PrefixSnoc(acts: seq<Act>, more: seq<Act>, k: nat)
    requires k < |more|
    ensures acts + more[..k + 1] == acts + more[..k] + [more[k]]
  {}

  lemma {:induction false} HungNodeStays(acts: seq<Act>, more: seq<Act>, i: u8)
    requires HangsAt(AfterActs(acts), i)
    ensures SameNode(AfterActs(acts), AfterActs(acts + more), i)
  {
    var ws := seq(|more| + 1, k requires 0 <= k <= |more| => AfterActs(acts + more[..k]));
    forall k | 0 <= k < |ws| - 1 && HangsAt(ws[k], i) ensures SameNode(ws[k], ws[k + 1], i) {
      PrefixSnoc(acts, more, k);
      HungAfterOneMore(acts + more[..k], more[k], i);
    }
    assert acts + more[..0] == acts && acts + more[..|more|] == acts + more;
    TidyNodeIsSame(AfterActs(acts), i);
    SameAlong(ws, i, |more|);
  }

  /**
   * A node whose connection has come to hang is lost for ever: whatever the manager does from then
   * on, its connection stays as it is, nothing more is handed out for it, and every request for it is
   * refused as busy.
   */
  lemma {:induction false} HungNodeIsLost(acts: seq<Act>, more: seq<Act>, i: u8, o: Order, tid: u8, now: nat, t: Timing)
    requires HangsAt(AfterActs(acts), i)
    ensures SameNode(AfterActs(acts), AfterActs(acts + more), i)
    ensures Begun(ConnFor(AfterActs(acts + more).manager.conns, i), o, tid, now, t).1 == Err(ClientBusy)
  {
    HungNodeStays(acts, more, i);
    HungIsBusy(AfterActs(acts).manager.conns[i], o, tid, now, t);
  }

  /** The manager serves one node only. */
  predicate OnlyNode(w: World, i: u8, c: Conn) { w.manager.conns == map[i := c] }

  lemma {:induction false} OnlyNodeServed(w: World, i: u8, next: Outcome, poll: bool)
    requires w.manager.conns.Keys == {i} && !next.0.state.Closed?
    ensures OnlyNode(AfterSteps(w, map[i := next], poll), i, next.0)
  {
    ServeExact(w.manager.conns, map[i := next], 0);
  }

  lemma {:induction false} OnlyNodeAfterServing(w: World, i: u8, c: Conn, op: Op)
    requires AllValid(w.manager.conns) && OnlyNode(w, i, c) && Valid(c) && !Step(c, op).0.state.Closed?
    ensures OnlyNode(AfterServing(w, op), i, Step(c, op).0)
  {
    assert Steps(w.manager.conns, op) == map[i := Step(c, op)];
    OnlyNodeServed(w, i, Step(c, op), op.Poll?);
  }

  lemma {:induction false} OnlyNodeAfterReply(w: World, i: u8, c: Conn, h: SequenceHeader, cmd: SdoCommand)
    requires OnlyNode(w, i, c) && !Responded(c, h, cmd).state.Closed?
    ensures AfterResponse(w.manager.conns, i, h, cmd) == map[i := Responded(c, h, cmd)]
  {}

  function ReplyOf(i: u8, op: Op): Act
    requires op.Response?
  {
    Reply(i, op.header, op.cmd)
  }

  lemma {:induction false} OnlyNodeAsked(acts: seq<Act>, i: u8, c: Conn, now: nat, t: Timing)
    requires OnlyNode(AfterActs(acts), i, c) && Valid(c) && !Step(c, Poll(now, t)).0.state.Closed?
    ensures OnlyNode(AfterActs(acts + [AskForRequest(now, t)]), i, Step(c, Poll(now, t)).0)
  {
    AfterActsSnoc(acts, AskForRequest(now, t));
    OnlyNodeAfterServing(AfterActs(acts), i, c, Poll(now, t));
  }

  lemma {:induction false} OnlyNodeAnswered(acts: seq<Act>, i: u8, c: Conn, answer: Op)
    requires OnlyNode(AfterActs(acts), i, c) && Valid(c) && answer.Response? && !Step(c, answer).0.state.Closed?
    ensures OnlyNode(AfterActs(acts + [ReplyOf(i, answer)]), i, Step(c, answer).0)
  {
    AfterActsSnoc(acts, ReplyOf(i, answer));
    OnlyNodeAfterReply(AfterActs(acts), i, c, answer.header, answer.cmd);
  }

  lemma {:induction false} OnlyNodeStarted(i: u8, index: u16, sub: u8, now: nat, t: Timing)
    ensures OnlyNode(AfterActs([Request(i, ReadObject(index, sub), now, t)]), i,
                     ReadStarted(NewConn(i), index, sub, 1, now, t).0)
  {
    var start := Request(i, ReadObject(index, sub), now, t);
    AfterActsSnoc([], start);
    assert [] + [start] == [start];
  }

  /** What leads a fresh manager that is asked for one read into the hang. */
  function HangingActs(i: u8, index: u16, sub: u8, now: nat, t: Timing): seq<Act> {
    [Request(i, ReadObject(index, sub), now, t)]
    + [AskForRequest(now, t)] + [ReplyOf(i, Accepting())] + [AskForRequest(now, t)] + [ReplyOf(i, Repeating())]
  }

  lemma {:induction false} ManagerAccepted(i: u8, index: u16, sub: u8, now: nat, t: Timing, c: Conn)
    requires c == ReadStarted(NewConn(i), index, sub, 1, now, t).0 && Valid(c)
    ensures OnlyNode(AfterActs([Request(i, ReadObject(index, sub), now, t)] + [AskForRequest(now, t)]
                               + [ReplyOf(i, Accepting())]), i,
                     Step(Step(c, Poll(now, t)).0, Accepting()).0)
  {
    var start := [Request(i, ReadObject(index, sub), now, t)];
    StepsToHang(i, index, sub, 1, now, t);
    OnlyNodeStarted(i, index, sub, now, t);
    OnlyNodeAsked(start, i, c, now, t);
    OnlyNodeAnswered(start + [AskForRequest(now, t)], i, Step(c, Poll(now, t)).0, Accepting());
  }

  lemma {:induction false} OnlyNodeHangs(w: World, i: u8, c: Conn)
    requires OnlyNode(w, i, c) && Hangs(c)
    ensures HangsAt(w, i)
  {}

  /** A fresh manager that is asked for one read hangs at that node after four more events. */
  lemma {:induction false} ManagerCanHang(i: u8, index: u16, sub: u8, now: nat, t: Timing)
    ensures HangsAt(AfterActs(HangingActs(i, index, sub, now, t)), i)
  {
    var c := ReadStarted(NewConn(i), index, sub, 1, now, t).0;
    StepsToHang(i, index, sub, 1, now, t);
    ManagerAccepted(i, index, sub, now, t, c);
    var acts := [Request(i, ReadObject(index, sub), now, t)] + [AskForRequest(now, t)] + [ReplyOf(i, Accepting())];
    var c2 := Step(Step(c, Poll(now, t)).0, Accepting()).0;
    OnlyNodeAsked(acts, i, c2, now, t);
    OnlyNodeAnswered(acts + [AskForRequest(now, t)], i, Step(c2, Poll(now, t)).0, Repeating());
    OnlyNodeHangs(AfterActs(HangingActs(i, index, sub, now, t)), i, Step(Step(c2, Poll(now, t)).0, Repeating()).0);
  }

  // ---- Why the pruning is needed ----

  /**
   * A write started on a closed connection object that is used again sends exactly its own frames
   * if and only if no entries of an earlier job are left on it: a wrong server number closes
   * without dropping the job.
   */
  lemma {:induction false} ReusedWriteLeaks(c: Conn, e: Entry, tid: u8, now: nat, t: Timing)
    requires Valid(c) && IsIdle(c)
    ensures var c' := WriteStarted(c, e, tid, now, t).0;
            Valid(c') && (Todo(c') == FramesOf(WritePayload(e), tid) <==> JobEntries(c.job) == [])
  {
    StartedIsValid(c, [], e, tid, now, t);
    var own, left := FramesOf(WritePayload(e), tid), JobFrames(JobEntries(c.job), tid);
    assert Todo(WriteStarted(c, e, tid, now, t).0) == own + left;
    if JobEntries(c.job) == [] {
      assert own + [] == own;
    } else {
      FramesClosedForm(WritePayload(JobEntries(c.job)[0]), NextTid(tid));
      assert |own + left| > |own|;
    }
  }

  /** The command sent when the server has accepted the connection. */
  function AfterOpening(c: Conn, now: nat, t: Timing, reply: SdoCommand): Option<SdoCommand>
    requires Valid(c)
  {
    var accepted := Step(c, Response(SequenceHeader(0, RInitialization, 0, SInitialization), reply)).0;
    match Step(accepted, Poll(now, t)).1
    case Some(f) => Some(f.cmd)
    case None => None
  }

  /**
   * Likewise, a configuration started on a closed connection first sends its first entry, and
   * otherwise whatever was still pending there: a read left by an earlier transfer is sent if and only if
   * there is one and no entry can be read from the data, be it that there is none or that the first is cut
   * short.
   */
  lemma {:induction false} ReusedConfigurationLeaks(c: Conn, data: seq<u8>, tid: u8, now: nat, t: Timing,
                                                    reply: SdoCommand)
    requires Valid(c) && c.state.Closed? && |data| >= 4 && !reply.header.isAborted
    ensures var c1 := Step(DcfStarted(c, data, tid, now, t).0, Poll(now, t)).0;
            var es := ParseAll(data, 4, EntryCount(data));
            && Valid(c1) && c1.state.Opening?
            && AfterOpening(c1, now, t, reply)
               == if es != [] then Some(WriteCommand(WritePayload(es[0]), 0, NextTid(tid))) else c.pending
  {
    StartedIsValid(c, data, Entry(0, 0, []), tid, now, t);
    var c0 := DcfStarted(c, data, tid, now, t).0;
    FirstEntryLoaded(c, data, tid, now, t);
    OpeningIsAnswered(c0, now, t, reply);
  }

  /** Starting a configuration loads its first entry, if one can be read. */
  lemma {:induction false} FirstEntryLoaded(c: Conn, data: seq<u8>, tid: u8, now: nat, t: Timing)
    requires Valid(c) && c.state.Closed? && |data| >= 4
    ensures var c0 := DcfStarted(c, data, tid, now, t).0;
            var es := ParseAll(data, 4, EntryCount(data));
            && Valid(c0) && c0.state.Opening? && c0.last.None? && c0.ssn == 0 && c0.rsn == 63 && c0.pending == c.pending
            && if es != [] then c0.buffer == WritePayload(es[0]) && c0.offset == 0 && c0.tid == NextTid(tid)
               else c0.buffer == [] && c0.job.None?
  {
    StartedIsValid(c, data, Entry(0, 0, []), tid, now, t);
  }

  /** What a connection that has just been started sends after its opening has been accepted. */
  lemma {:induction false} OpeningIsAnswered(c: Conn, now: nat, t: Timing, reply: SdoCommand)
    requires Valid(c) && c.state.Opening? && c.last.None? && c.ssn == 0 && c.rsn == 63 && !reply.header.isAborted
    requires c.buffer != [] || c.job.None?
    ensures var c1 := Step(c, Poll(now, t)).0;
            && Valid(c1) && c1.state.Opening?
            && AfterOpening(c1, now, t, reply)
               == if c.buffer != [] then Some(WriteCommand(c.buffer, 0, c.tid)) else c.pending
  {}
}
