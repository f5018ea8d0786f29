/**
 * The way back of an embedded SDO channel: which of the containers that a server sends its client
 * takes as the answer to its latest request (EPSG DS 301, section 6.3.3.1).
 */
module EmbeddedAnswers {
  import opened Wrappers
  import opened Bytes
  import opened ObjectDictionaries
  import opened EmbeddedCodec
  import opened EmbeddedChannel
  import opened EmbeddedDelivery
  import Server = EmbeddedServers
  import Client = EmbeddedClients

  /** A response and the position of the container that it responds to. */
  datatype Response = Response(at: nat, command: PdoCommand)

  /** A container on its way back, and the response that it was made for, if there was one. */
  datatype Reply = Reply(bytes: seq<u8>, response: Option<Response>)

  /** Both sides, the response that waits, the containers sent back, and the arrivals at the server so far. */
  datatype Duplex = Duplex(
    sender: Sender,
    receiver: Receiver,
    waiting: Option<Response>,
    replies: seq<Reply>,
    arrived: seq<nat>)

  datatype DuplexOp = ClientActs(op: ClientOp) | Arrives(at: nat) | ServerSends(len: nat)

  /** The response to a payload that is executed. */
  function ResponseOf(payload: seq<u8>, od: OdState): PdoCommand
    requires Decode(payload).Ok?
  {
    var req := Decode(payload).value;
    Server.ResponseTo(req, Server.Outcome(req, od).0, req.sequence)
  }

  function StepDuplex(d: Duplex, op: DuplexOp): Duplex {
    match op
    case ClientActs(c) => d.(sender := Act(d.sender, c))
    case Arrives(at) =>
      if at >= |d.sender.sent| then d
      else
        var bytes := d.sender.sent[at].bytes;
        d.(receiver := Receive(d.receiver, d.sender.sent, at),
           waiting := if !Server.Executes(d.receiver.conn, bytes) then d.waiting
                      else Some(Response(at, ResponseOf(bytes, d.receiver.od))),
           arrived := d.arrived + [at])
    case ServerSends(len) =>
      d.(receiver := d.receiver.(conn := d.receiver.conn.(pending := None)),
         waiting := None,
         replies := d.replies + [Reply(Server.ResponseContainer(d.receiver.conn.pending, len), d.waiting)])
  }

  function StartDuplex(conn: Client.ClientConn, server: Server.ServerConn, od: OdState): Duplex {
    Duplex(Sender(conn, [], []), Receiver(server, od, []), None, [], [])
  }

  function RunDuplex(d: Duplex, ops: seq<DuplexOp>): Duplex {
    if ops == [] then d else StepDuplex(RunDuplex(d, ops[..|ops| - 1]), ops[|ops| - 1])
  }

  // ---- What the containers hold ----

  /** A response carries the number of the container that it responds to. */
  predicate ResponseSound(r: Response, sent: seq<Container>, start: u8) {
    && r.at < |sent| && Some(r.command.sequence) == ExpectedNumber(sent[r.at], start, Taken(sent, r.at))
    && r.command.sequence < 64 && r.command.connection < 4
  }

  /** What the server keeps for a waiting response. */
  function Kept(r: Option<Response>): Option<seq<u8>> {
    match r
    case Some(x) => Some(Encode(x.command))
    case None => None
  }

  predicate ReplySound(reply: Reply, sent: seq<Container>, start: u8) {
    && reply.bytes == Server.ResponseContainer(Kept(reply.response), |reply.bytes|)
    && (reply.response.Some? ==> ResponseSound(reply.response.value, sent, start))
  }

  ghost predicate RepliesSound(replies: seq<Reply>, sent: seq<Container>, start: u8) {
    forall j :: 0 <= j < |replies| ==> ReplySound(replies[j], sent, start)
  }

  ghost predicate DuplexSound(d: Duplex, start: u8) {
    && SenderSound(d.sender, start)
    && d.receiver.conn.pending == Kept(d.waiting)
    && (d.waiting.Some? ==> ResponseSound(d.waiting.value, d.sender.sent, start))
    && RepliesSound(d.replies, d.sender.sent, start)
  }

  lemma {:induction false} ResponseStaysSound(r: Response, sent: seq<Container>, c: Container, start: u8)
    requires ResponseSound(r, sent, start)
    ensures ResponseSound(r, sent + [c], start)
  {
    TakenPrefix(sent, c, r.at);
  }

  lemma {:induction false} RepliesStaySound(replies: seq<Reply>, sent: seq<Container>, c: Container, start: u8)
    requires RepliesSound(replies, sent, start)
    ensures RepliesSound(replies, sent + [c], start)
  {
    forall j | 0 <= j < |replies| ensures ReplySound(replies[j], sent + [c], start) {
      assert ReplySound(replies[j], sent, start);
      if replies[j].response.Some? { ResponseStaysSound(replies[j].response.value, sent, c, start); }
    }
  }

  lemma {:induction false} SentGrows(s: Sender, op: ClientOp) returns (c: Container)
    ensures Act(s, op).sent == s.sent || Act(s, op).sent == s.sent + [c]
  {
    c := Container([], Nothing);
    if op.Send? { c := Act(s, op).sent[|s.sent|]; }
  }

  lemma {:induction false} ClientActsSound(d: Duplex, op: ClientOp, start: u8)
    requires DuplexSound(d, start)
    ensures DuplexSound(StepDuplex(d, ClientActs(op)), start)
  {
    ActSound(d.sender, op, start);
    var c := SentGrows(d.sender, op);
    if Act(d.sender, op).sent != d.sender.sent {
      RepliesStaySound(d.replies, d.sender.sent, c, start);
      if d.waiting.Some? { ResponseStaysSound(d.waiting.value, d.sender.sent, c, start); }
    }
  }

  /** What receiving a container leaves pending. */
  lemma {:induction false} ReceiveLeavesResponse(r: Receiver, sent: seq<Container>, at: nat)
    requires at < |sent|
    ensures var bytes := sent[at].bytes;
            if Server.Executes(r.conn, bytes) then
              && Receive(r, sent, at).conn.pending == Some(Encode(ResponseOf(bytes, r.od)))
              && Some(ResponseOf(bytes, r.od).sequence) == NumberOf(sent[at])
              && ResponseOf(bytes, r.od).sequence < 64 && ResponseOf(bytes, r.od).connection < 4
            else Receive(r, sent, at) == r
  {
    if Decode(sent[at].bytes).Ok? { DecodedIsRepresentable(sent[at].bytes); }
  }

  lemma {:induction false} ArrivesSound(d: Duplex, at: nat, start: u8)
    requires DuplexSound(d, start)
    ensures DuplexSound(StepDuplex(d, Arrives(at)), start)
  {
    if at < |d.sender.sent| {
      var c := d.sender.sent[at];
      ReceiveLeavesResponse(d.receiver, d.sender.sent, at);
      assert CargoSound(c, start, d.sender.requests, Taken(d.sender.sent, at));
      NumberAsExpected(c, start, d.sender.requests, Taken(d.sender.sent, at));
    }
  }

  lemma {:induction false} ServerSendsSound(d: Duplex, len: nat, start: u8)
    requires DuplexSound(d, start)
    ensures DuplexSound(StepDuplex(d, ServerSends(len)), start)
  {
    var d' := StepDuplex(d, ServerSends(len));
    forall j | 0 <= j < |d'.replies| ensures ReplySound(d'.replies[j], d.sender.sent, start) {
      if j < |d.replies| { assert ReplySound(d.replies[j], d.sender.sent, start); }
    }
  }

  lemma {:induction false} DuplexStaysSound(conn: Client.ClientConn, server: Server.ServerConn, od: OdState,
                                            ops: seq<DuplexOp>)
    requires conn.nextSequence < 64 && server.pending.None?
    ensures DuplexSound(RunDuplex(StartDuplex(conn, server, od), ops), conn.nextSequence)
  {
    if ops != [] {
      var before := RunDuplex(StartDuplex(conn, server, od), ops[..|ops| - 1]);
      DuplexStaysSound(conn, server, od, ops[..|ops| - 1]);
      match ops[|ops| - 1] {
        case ClientActs(op) => ClientActsSound(before, op, conn.nextSequence);
        case Arrives(at) => ArrivesSound(before, at, conn.nextSequence);
        case ServerSends(len) => ServerSendsSound(before, len, conn.nextSequence);
      }
    }
  }

  // ---- What the client takes as an answer ----

  /** Zeros answer exactly a request numbered 0, if they are long enough to decode. */
  lemma {:induction false} IdleAnswers(conn: Client.ClientConn, len: nat)
    ensures Client.Answers(conn, Zeros(len)) <==> len >= 8 && (conn.nextSequence + 63) % 64 == 0
  {
    IdleDecodes(len);
  }

  lemma {:induction false} ResponseAnswers(conn: Client.ClientConn, c: PdoCommand, len: nat)
    requires c.sequence < 64 && c.connection < 4
    ensures Client.Answers(conn, Server.ResponseContainer(Some(Encode(c)), len)) <==>
              len >= 8 + |c.data| % 0x100 && c.sequence == (conn.nextSequence + 63) % 64
  {
    CutOrPadded(c, len);
  }

  /** The number of the latest of m requests, the first of which has number start. */
  function LatestNumber(start: u8, m: nat): nat { (start + m + 63) % 64 }

  /** A container sent back is long enough, and the container that it responds to has a number. */
  predicate Fits(reply: Reply) {
    |reply.bytes| >= 8 + match reply.response case Some(r) => |r.command.data| % 0x100 case None => 0
  }

  /** Request k is the latest of m, or a multiple of 64 before it. */
  predicate SameTurn(m: nat, k: nat) { (m - 1 - k) % 64 == 0 }

  /** A container sent back carries the number of the latest of m requests. */
  predicate CarriesLatest(reply: Reply, sent: seq<Container>, start: u8, m: nat) {
    match reply.response
    case None => LatestNumber(start, m) == 0
    case Some(r) =>
      r.at < |sent| &&
      match sent[r.at].cargo
      case Carried(k) => SameTurn(m, k)
      case _ => LatestNumber(start, m) == 0
  }

  lemma SameNumber(start: u8, m: nat, k: nat)
    ensures (start + k) % 64 == LatestNumber(start, m) <==> SameTurn(m, k)
  {}

  /** A container that carries a request names it. */
  predicate NamesItsRequest(sent: seq<Container>, at: nat) {
    at < |sent| && (sent[at].cargo.Carried? ==> sent[at].cargo.number == Taken(sent, at))
  }

  lemma {:induction false} NumberOfResponse(sent: seq<Container>, start: u8, r: Response)
    requires NamesItsRequest(sent, r.at) && ResponseSound(r, sent, start)
    ensures r.command.sequence == if sent[r.at].cargo.Carried? then (start + sent[r.at].cargo.number) % 64 else 0
  {}

  lemma {:induction false} NumberIsLatest(sent: seq<Container>, start: u8, r: Response, bytes: seq<u8>, m: nat)
    requires NamesItsRequest(sent, r.at) && ResponseSound(r, sent, start)
    ensures r.command.sequence == LatestNumber(start, m) <==>
              CarriesLatest(Reply(bytes, Some(r)), sent, start, m)
  {
    NumberOfResponse(sent, start, r);
    if sent[r.at].cargo.Carried? { SameNumber(start, m, sent[r.at].cargo.number); }
  }

  lemma {:induction false} LatestOfSender(s: Sender, start: u8)
    requires SenderSound(s, start)
    ensures (s.conn.nextSequence + 63) % 64 == LatestNumber(start, |s.requests|)
  {}

  /**
   * Which containers a client takes as answers, in every run of both sides, whatever is lost,
   * repeated or reordered on the way there and back: a response that is not cut short, to the latest request
   * or to one a multiple of 64 before it; and, whenever the latest request has number 0, also any response to zeros
   * and any idle container of at least eight bytes.
   */
  lemma {:induction false} TakenAsAnswer(conn: Client.ClientConn, server: Server.ServerConn, od: OdState,
                                         ops: seq<DuplexOp>, j: nat)
    requires conn.nextSequence < 64 && server.pending.None?
    requires j < |RunDuplex(StartDuplex(conn, server, od), ops).replies|
    ensures var d := RunDuplex(StartDuplex(conn, server, od), ops);
            (Client.Answers(d.sender.conn, d.replies[j].bytes) <==>
               && Fits(d.replies[j])
               && CarriesLatest(d.replies[j], d.sender.sent, conn.nextSequence, |d.sender.requests|))
  {
    var d := RunDuplex(StartDuplex(conn, server, od), ops);
    DuplexStaysSound(conn, server, od, ops);
    assert ReplySound(d.replies[j], d.sender.sent, conn.nextSequence);
    LatestOfSender(d.sender, conn.nextSequence);
    ReplyTaken(d.sender, conn.nextSequence, d.replies[j]);
  }

  lemma {:induction false} ReplyTaken(s: Sender, start: u8, reply: Reply)
    requires SenderSound(s, start) && ReplySound(reply, s.sent, start)
    requires (s.conn.nextSequence + 63) % 64 == LatestNumber(start, |s.requests|)
    ensures Client.Answers(s.conn, reply.bytes) <==>
              Fits(reply) && CarriesLatest(reply, s.sent, start, |s.requests|)
  {
    match reply.response {
      case None => IdleAnswers(s.conn, |reply.bytes|);
      case Some(r) =>
        if s.sent[r.at].cargo.Carried? { CargoNumber(s, start, r.at); }
        ResponseTaken(s.conn, s.sent, start, r, reply, |s.requests|);
    }
  }

  lemma {:induction false} ResponseTaken(conn: Client.ClientConn, sent: seq<Container>, start: u8, r: Response,
                                         reply: Reply, m: nat)
    requires NamesItsRequest(sent, r.at) && ResponseSound(r, sent, start) && reply.response == Some(r)
    requires reply.bytes == Server.ResponseContainer(Some(Encode(r.command)), |reply.bytes|)
    requires (conn.nextSequence + 63) % 64 == LatestNumber(start, m)
    ensures Client.Answers(conn, reply.bytes) <==> Fits(reply) && CarriesLatest(reply, sent, start, m)
  {
    ResponseAnswers(conn, r.command, |reply.bytes|);
    NumberIsLatest(sent, start, r, reply.bytes, m);
    assert reply == Reply(reply.bytes, Some(r));
  }

  /** A fresh pair: the first request is not executed, and yet any idle container passes for its answer. */
  lemma {:induction false} FreshPairIsAnswered(r: Client.Request, len: nat, idle: nat)
    requires Client.Fits(r, len)
    ensures var (conn, bytes) := Client.NextContainer(Client.IDLE_CLIENT.(queue := [r]), len);
            && !Server.Executes(Server.IDLE_SERVER, bytes)
            && (Client.Answers(conn, Zeros(idle)) <==> idle >= 8)
  {
    PaddedDecodes(Client.CommandOf(r, 0), len);
    IdleAnswers(Client.NextContainer(Client.IDLE_CLIENT.(queue := [r]), len).0, idle);
  }

  // ---- Every response goes out at most once ----

  /** The positions of the containers that have been responded to, in the order of the responses. */
  function Responded(replies: seq<Reply>): seq<nat> {
    if replies == [] then []
    else
      var k := |replies| - 1;
      Responded(replies[..k]) + if replies[k].response.Some? then [replies[k].response.value.at] else []
  }

  ghost predicate Below(s: seq<nat>, n: nat) { forall q :: q in s ==> q < n }

  /** Responses go out in the order of the executions, and the one that waits is that of the last execution. */
  ghost predicate InTurn(d: Duplex) {
    && (d.arrived == [] ==> d.receiver.executed == [])
    && (d.arrived != [] ==>
          var latest := d.arrived[|d.arrived| - 1];
          latest < |d.sender.sent| && AtMostOnce(d.receiver, d.sender.sent, latest))
    && LastWaits(d.receiver.executed, Responded(d.replies), d.waiting)
  }

  ghost predicate LastWaits(executed: seq<nat>, responded: seq<nat>, waiting: Option<Response>) {
    && Increasing(responded)
    && match waiting
       case Some(r) => executed != [] && r.at == executed[|executed| - 1] && Below(responded, r.at)
       case None => responded != [] ==> executed != [] && Below(responded, executed[|executed| - 1] + 1)
  }

  /** The arrivals keep the order of sending. */
  predicate KeepsOrder(arrived: seq<nat>) {
    forall j, k :: 0 <= j <= k < |arrived| ==> arrived[j] <= arrived[k]
  }

  lemma {:induction false} RespondedSnoc(replies: seq<Reply>, reply: Reply)
    ensures Responded(replies + [reply])
         == Responded(replies) + if reply.response.Some? then [reply.response.value.at] else []
  {
    assert (replies + [reply])[..|replies|] == replies;
  }

  lemma {:induction false} AtMostOnceLonger(r: Receiver, sent: seq<Container>, c: Container, latest: nat)
    requires latest < |sent| && AtMostOnce(r, sent, latest)
    ensures AtMostOnce(r, sent + [c], latest)
  {}

  lemma {:induction false} ClientActsInTurn(d: Duplex, op: ClientOp)
    requires InTurn(d)
    ensures InTurn(StepDuplex(d, ClientActs(op)))
  {
    var c := SentGrows(d.sender, op);
    if d.arrived != [] && Act(d.sender, op).sent != d.sender.sent {
      AtMostOnceLonger(d.receiver, d.sender.sent, c, d.arrived[|d.arrived| - 1]);
    }
  }

  lemma {:induction false} RespondedInTurn(executed: seq<nat>, s: seq<nat>, waiting: Option<Response>, s': seq<nat>)
    requires LastWaits(executed, s, waiting) && s' == s + if waiting.Some? then [waiting.value.at] else []
    ensures LastWaits(executed, s', None)
  {
    if waiting.Some? {
      IncreasingSnoc(s, waiting.value.at);
      forall q | q in s' ensures q < waiting.value.at + 1 { assert q in s || q == waiting.value.at; }
    } else {
      assert s' == s;
    }
  }

  /** Only the order of responses changes when the server sends. */
  lemma {:induction false} InTurnAfter(d: Duplex, d': Duplex)
    requires InTurn(d) && d'.sender == d.sender && d'.arrived == d.arrived
    requires d'.receiver.executed == d.receiver.executed
    requires d'.receiver.conn.lastSequence == d.receiver.conn.lastSequence
    requires LastWaits(d.receiver.executed, Responded(d'.replies), d'.waiting)
    ensures InTurn(d')
  {}

  lemma {:induction false} ServerSendsInTurn(d: Duplex, len: nat)
    requires InTurn(d)
    ensures InTurn(StepDuplex(d, ServerSends(len)))
  {
    var reply := Reply(Server.ResponseContainer(d.receiver.conn.pending, len), d.waiting);
    RespondedSnoc(d.replies, reply);
    RespondedInTurn(d.receiver.executed, Responded(d.replies), d.waiting, Responded(d.replies + [reply]));
    InTurnAfter(d, StepDuplex(d, ServerSends(len)));
  }

  lemma {:induction false} FirstArrival(r: Receiver, sent: seq<Container>, at: nat)
    requires at < |sent| && r.executed == []
    ensures AtMostOnce(Receive(r, sent, at), sent, at)
  {}

  lemma {:induction false} ArrivesInTurn(d: Duplex, at: nat)
    requires InTurn(d) && KeepsOrder(d.arrived + [at])
    ensures InTurn(StepDuplex(d, Arrives(at)))
  {
    if at < |d.sender.sent| {
      var sent, r := d.sender.sent, d.receiver;
      var n := |d.arrived|;
      assert (d.arrived + [at])[n] == at;
      if n == 0 {
        FirstArrival(r, sent, at);
      } else {
        assert (d.arrived + [at])[n - 1] == d.arrived[n - 1] <= (d.arrived + [at])[n];
        ReceiveAtMostOnce(r, sent, d.arrived[n - 1], at);
      }
      ReceiveLeavesResponse(r, sent, at);
      ReceiveByNumber(r, sent, at);
      if Server.Executes(r.conn, sent[at].bytes) { NewIsLast(r, sent, at); }
    }
  }

  /** A container executed now is behind all that were executed before. */
  lemma {:induction false} NewIsLast(r: Receiver, sent: seq<Container>, at: nat)
    requires at < |sent| && AtMostOnce(Receive(r, sent, at), sent, at) && Server.Executes(r.conn, sent[at].bytes)
    ensures Receive(r, sent, at).executed == r.executed + [at]
    ensures r.executed != [] ==> r.executed[|r.executed| - 1] < at
  {
    ReceiveByNumber(r, sent, at);
    var executed := r.executed + [at];
    assert Increasing(executed);
    if r.executed != [] { assert executed[|r.executed| - 1] < executed[|r.executed|]; }
  }

  /** Arrivals only grow, so an order kept at the end has been kept all along. */
  lemma {:induction false} ArrivedGrows(d: Duplex, ops: seq<DuplexOp>)
    requires ops != []
    ensures RunDuplex(d, ops[..|ops| - 1]).arrived <= RunDuplex(d, ops).arrived
  {}

  /**
   * When the containers of the client arrive in order, with any losses and repetitions, each execution
   * is responded to in at most one container, in the order of the executions: a response that is lost is never sent
   * again, and no repetition of its request brings it back.
   */
  lemma {:induction false} RespondedAtMostOnce(conn: Client.ClientConn, server: Server.ServerConn, od: OdState,
                                               ops: seq<DuplexOp>)
    requires KeepsOrder(RunDuplex(StartDuplex(conn, server, od), ops).arrived)
    ensures Increasing(Responded(RunDuplex(StartDuplex(conn, server, od), ops).replies))
    ensures InTurn(RunDuplex(StartDuplex(conn, server, od), ops))
  {
    if ops != [] {
      var start := StartDuplex(conn, server, od);
      var before := RunDuplex(start, ops[..|ops| - 1]);
      ArrivedGrows(start, ops);
      RespondedAtMostOnce(conn, server, od, ops[..|ops| - 1]);
      match ops[|ops| - 1] {
        case ClientActs(op) => ClientActsInTurn(before, op);
        case Arrives(at) =>
          if at < |before.sender.sent| { ArrivesInTurn(before, at); }
        case ServerSends(len) => ServerSendsInTurn(before, len);
      }
    }
  }
}
