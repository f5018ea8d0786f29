/**
 * Client and server of an embedded SDO channel together, over a channel that keeps the order of
 * the containers but may lose and repeat them (EPSG DS 301, section 6.3.3.1).
 */
module EmbeddedChannel {
  import opened Wrappers
  import opened Bytes
  import opened ObjectDictionaries
  import opened EmbeddedCodec
  import Server = EmbeddedServers
  import Client = EmbeddedClients

  // ---- The client side: which containers it puts into its PDOs ----

  datatype ClientOp = Queue(request: Client.Request) | Send(len: nat)

  /** What a container carries: nothing, a request by its number, or zeros instead of a request that does not fit. */
  datatype Cargo = Nothing | Carried(number: nat) | Dropped(number: nat)

  /** A container on its way. */
  datatype Container = Container(bytes: seq<u8>, cargo: Cargo)

  /** The client, all requests it has taken off its queue, and all containers it has sent. */
  datatype Sender = Sender(conn: Client.ClientConn, requests: seq<Client.Request>, sent: seq<Container>)

  function Act(s: Sender, op: ClientOp): Sender {
    match op
    case Queue(r) => s.(conn := s.conn.(queue := s.conn.queue + [r]))
    case Send(len) =>
      var (conn', bytes) := Client.NextContainer(s.conn, len);
      if s.conn.queue == [] then s.(conn := conn', sent := s.sent + [Container(bytes, Nothing)])
      else
        var r := s.conn.queue[0];
        var cargo := if Client.Fits(r, len) then Carried(|s.requests|) else Dropped(|s.requests|);
        Sender(conn', s.requests + [r], s.sent + [Container(bytes, cargo)])
  }

  function RunClient(conn: Client.ClientConn, ops: seq<ClientOp>): Sender {
    if ops == [] then Sender(conn, [], []) else Act(RunClient(conn, ops[..|ops| - 1]), ops[|ops| - 1])
  }

  /** How many requests had been taken off the queue when container n was made. */
  function Taken(sent: seq<Container>, n: nat): nat
    requires n <= |sent|
  {
    if n == 0 then 0 else Taken(sent, n - 1) + if sent[n - 1].cargo.Nothing? then 0 else 1
  }

  /** The command that arrives for a request: its data is cut to the length field of one byte. */
  function Delivered(r: Client.Request, sequence: u8): PdoCommand {
    Client.CommandOf(r, sequence).(validLength := |r.data| % 0x100, data := r.data[..|r.data| % 0x100])
  }

  /** A container decodes to its request under the number that belongs to it, or it holds zeros. */
  predicate CargoSound(c: Container, start: u8, requests: seq<Client.Request>, taken: nat) {
    match c.cargo
    case Nothing => c.bytes == Zeros(|c.bytes|)
    case Dropped(k) =>
      && k == taken < |requests| && c.bytes == Zeros(|c.bytes|) && !Client.Fits(requests[k], |c.bytes|)
    case Carried(k) =>
      && k == taken < |requests| && Client.Fits(requests[k], |c.bytes|)
      && Decode(c.bytes) == Ok(Delivered(requests[k], (start + k) % 64))
  }

  ghost predicate AllSound(sent: seq<Container>, start: u8, requests: seq<Client.Request>) {
    forall p :: 0 <= p < |sent| ==> CargoSound(sent[p], start, requests, Taken(sent, p))
  }

  ghost predicate SenderSound(s: Sender, start: u8) {
    && s.conn.nextSequence == (start + |s.requests|) % 64
    && |s.requests| == Taken(s.sent, |s.sent|)
    && AllSound(s.sent, start, s.requests)
  }

  lemma {:induction false} TakenPrefix(sent: seq<Container>, c: Container, n: nat)
    requires n <= |sent|
    ensures Taken(sent + [c], n) == Taken(sent, n)
  {
    if n > 0 { TakenPrefix(sent, c, n - 1); }
  }

  lemma {:induction false} TakenMonotone(sent: seq<Container>, p: nat, q: nat)
    requires p <= q <= |sent|
    ensures Taken(sent, p) <= Taken(sent, q)
    ensures p < q && !sent[p].cargo.Nothing? ==> Taken(sent, p) < Taken(sent, q)
  {
    if p < q { TakenMonotone(sent, p, q - 1); }
  }

  lemma NextNumber(start: u8, at: nat)
    ensures at > 0 ==> (start + at) % 64 == ((start + (at - 1)) % 64 + 1) % 64
  {}

  /** A padded command decodes to the command with its data cut to the length field. */
  lemma {:induction false} PaddedDecodes(c: PdoCommand, len: nat)
    requires c.sequence < 64 && c.connection < 4 && |Encode(c)| <= len
    ensures Decode(PadTo(Encode(c), len)) == Ok(c.(validLength := |c.data| % 0x100, data := c.data[..|c.data| % 0x100]))
  {
    DecodeOfSmall(c, Zeros(len - |Encode(c)|));
  }

  /** The container that a client makes next is sound. */
  lemma {:induction false} SendSound(s: Sender, len: nat, start: u8) returns (c: Container)
    requires s.conn.nextSequence == (start + |s.requests|) % 64
    ensures var s' := Act(s, Send(len));
            && |c.bytes| == len && s'.sent == s.sent + [c] && s.requests <= s'.requests
            && CargoSound(c, start, s'.requests, |s.requests|)
            && |s'.requests| == |s.requests| + (if c.cargo.Nothing? then 0 else 1)
  {
    c := Act(s, Send(len)).sent[|s.sent|];
    if s.conn.queue != [] {
      var r := s.conn.queue[0];
      assert (s.requests + [r])[|s.requests|] == r;
      if Client.Fits(r, len) { PaddedDecodes(Client.CommandOf(r, s.conn.nextSequence), len); }
    }
  }

  lemma {:induction false} SoundWithMore(c: Container, start: u8, requests: seq<Client.Request>,
                                          more: seq<Client.Request>, taken: nat)
    requires CargoSound(c, start, requests, taken) && requests <= more
    ensures CargoSound(c, start, more, taken)
  {}

  /** Sound containers stay so when a sound one follows and the list of requests grows. */
  lemma {:induction false} SoundAt(sent: seq<Container>, c: Container, start: u8,
                                   requests: seq<Client.Request>, more: seq<Client.Request>, p: nat)
    requires p <= |sent| && requests <= more
    requires p < |sent| ==> CargoSound(sent[p], start, requests, Taken(sent, p))
    requires CargoSound(c, start, more, Taken(sent, |sent|))
    ensures CargoSound((sent + [c])[p], start, more, Taken(sent + [c], p))
  {
    TakenPrefix(sent, c, p);
    if p < |sent| { SoundWithMore(sent[p], start, requests, more, Taken(sent, p)); }
  }

  lemma {:induction false} SoundLonger(sent: seq<Container>, c: Container, start: u8,
                                       requests: seq<Client.Request>, more: seq<Client.Request>)
    requires AllSound(sent, start, requests) && requests <= more && CargoSound(c, start, more, Taken(sent, |sent|))
    ensures AllSound(sent + [c], start, more)
  {
    forall p | 0 <= p < |sent + [c]| ensures CargoSound((sent + [c])[p], start, more, Taken(sent + [c], p)) {
      SoundAt(sent, c, start, requests, more, p);
    }
  }

  lemma {:induction false} SendKeepsCounts(s: Sender, len: nat, start: u8)
    requires s.conn.nextSequence == (start + |s.requests|) % 64 && |s.requests| == Taken(s.sent, |s.sent|)
    ensures var s' := Act(s, Send(len));
            && s'.conn.nextSequence == (start + |s'.requests|) % 64 && |s'.requests| == Taken(s'.sent, |s'.sent|)
  {
    var s' := Act(s, Send(len));
    TakenPrefix(s.sent, s'.sent[|s.sent|], |s.sent|);
    NextNumber(start, |s.requests| + 1);
  }

  lemma {:induction false} SendKeepsSound(s: Sender, len: nat, start: u8)
    requires SenderSound(s, start)
    ensures AllSound(Act(s, Send(len)).sent, start, Act(s, Send(len)).requests)
  {
    var c := SendSound(s, len, start);
    SoundLonger(s.sent, c, start, s.requests, Act(s, Send(len)).requests);
  }

  lemma {:induction false} QueueKeepsSound(s: Sender, r: Client.Request, start: u8)
    requires SenderSound(s, start)
    ensures SenderSound(Act(s, Queue(r)), start)
  {
    assert Act(s, Queue(r)).sent == s.sent && Act(s, Queue(r)).requests == s.requests;
  }

  lemma {:induction false} SendActSound(s: Sender, len: nat, start: u8)
    requires SenderSound(s, start)
    ensures SenderSound(Act(s, Send(len)), start)
  {
    SendKeepsCounts(s, len, start);
    SendKeepsSound(s, len, start);
  }

  lemma {:induction false} ActSound(s: Sender, op: ClientOp, start: u8)
    requires SenderSound(s, start)
    ensures SenderSound(Act(s, op), start)
  {
    match op {
      case Queue(r) => QueueKeepsSound(s, r, start);
      case Send(len) => SendActSound(s, len, start);
    }
  }

  /** The requests go out in the order of the queue, each under the number after the one before. */
  lemma {:induction false} ClientNumbersRequests(conn: Client.ClientConn, ops: seq<ClientOp>)
    requires conn.nextSequence < 64
    ensures SenderSound(RunClient(conn, ops), conn.nextSequence)
  {
    if ops != [] {
      ClientNumbersRequests(conn, ops[..|ops| - 1]);
      ActSound(RunClient(conn, ops[..|ops| - 1]), ops[|ops| - 1], conn.nextSequence);
    }
  }

  // ---- The server side: what it executes of what arrives ----

  /** The positions, among the sent containers, of what arrives: later ones may be missing, any may repeat. */
  ghost predicate InOrder(arrivals: seq<nat>, n: nat) {
    && (forall k :: 0 <= k < |arrivals| ==> arrivals[k] < n)
    && (forall j, k :: 0 <= j <= k < |arrivals| ==> arrivals[j] <= arrivals[k])
  }

  /** The server, its dictionary, and the positions of the containers it executed. */
  datatype Receiver = Receiver(conn: Server.ServerConn, od: OdState, executed: seq<nat>)

  function Receive(r: Receiver, sent: seq<Container>, at: nat): Receiver
    requires at < |sent|
  {
    var (conn', od') := Server.Handled(r.conn, sent[at].bytes, r.od);
    Receiver(conn', od', if Server.Executes(r.conn, sent[at].bytes) then r.executed + [at] else r.executed)
  }

  function RunServer(r: Receiver, sent: seq<Container>, arrivals: seq<nat>): Receiver
    requires forall k :: 0 <= k < |arrivals| ==> arrivals[k] < |sent|
  {
    if arrivals == [] then r
    else Receive(RunServer(r, sent, arrivals[..|arrivals| - 1]), sent, arrivals[|arrivals| - 1])
  }

  ghost predicate Increasing(s: seq<nat>) { forall j, k :: 0 <= j < k < |s| ==> s[j] < s[k] }

  /** The last executed container has arrived already, and while it is the latest the server knows its number. */
  ghost predicate AtMostOnce(r: Receiver, sent: seq<Container>, latest: nat)
    requires latest < |sent|
  {
    && Increasing(r.executed)
    && (r.executed != [] ==>
          var last := r.executed[|r.executed| - 1];
          && last <= latest
          && (last == latest ==>
                Decode(sent[latest].bytes).Ok? && Decode(sent[latest].bytes).value.sequence == r.conn.lastSequence))
  }

  lemma ReceiveAtMostOnce(r: Receiver, sent: seq<Container>, latest: nat, at: nat)
    requires latest <= at < |sent| && AtMostOnce(r, sent, latest)
    ensures AtMostOnce(Receive(r, sent, at), sent, at)
  {}

  /**
   * Over any channel that keeps the order, every container is executed at most once and in the
   * order of sending, idle containers included; so the numbers of the executed requests are
   * strictly increasing, whatever else is lost or repeated.
   */
  lemma {:induction false} ExecutedAtMostOnce(r: Receiver, sent: seq<Container>, arrivals: seq<nat>)
    requires InOrder(arrivals, |sent|) && r.executed == []
    ensures Increasing(RunServer(r, sent, arrivals).executed)
    ensures arrivals != [] ==> AtMostOnce(RunServer(r, sent, arrivals), sent, arrivals[|arrivals| - 1])
  {
    if |arrivals| == 1 {
      assert arrivals[..0] == [];
      ReceiveAtMostOnce(r, sent, arrivals[0], arrivals[0]);
    } else if |arrivals| > 1 {
      var n := |arrivals|;
      ExecutedAtMostOnce(r, sent, arrivals[..n - 1]);
      ReceiveAtMostOnce(RunServer(r, sent, arrivals[..n - 1]), sent, arrivals[n - 2], arrivals[n - 1]);
    }
  }

  /** The numbers of the requests among executed containers. */
  function RequestsOf(sent: seq<Container>, executed: seq<nat>): seq<nat>
    requires forall k :: 0 <= k < |executed| ==> executed[k] < |sent|
  {
    if executed == [] then []
    else
      var k := |executed| - 1;
      var c := sent[executed[k]].cargo;
      RequestsOf(sent, executed[..k]) + if c.Carried? then [c.number] else []
  }

  /** A request is among them exactly when a container that carries it is. */
  lemma {:induction false} RequestsOfExact(sent: seq<Container>, executed: seq<nat>, q: nat)
    requires forall k :: 0 <= k < |executed| ==> executed[k] < |sent|
    ensures q in RequestsOf(sent, executed) <==> exists p :: p in executed && sent[p].cargo == Carried(q)
  {
    if executed != [] {
      var k := |executed| - 1;
      RequestsOfExact(sent, executed[..k], q);
      assert executed == executed[..k] + [executed[k]];
    }
  }

  lemma IncreasingSnoc(s: seq<nat>, x: nat)
    requires Increasing(s) && forall q :: q in s ==> q < x
    ensures Increasing(s + [x])
  {
    forall j | 0 <= j < |s| ensures s[j] < x { assert s[j] in s; }
  }

  lemma {:induction false} RequestsIncrease(s: Sender, start: u8, executed: seq<nat>)
    requires SenderSound(s, start) && Increasing(executed)
    requires forall k :: 0 <= k < |executed| ==> executed[k] < |s.sent|
    ensures Increasing(RequestsOf(s.sent, executed))
  {
    if executed != [] {
      var k := |executed| - 1;
      var earlier, at := RequestsOf(s.sent, executed[..k]), executed[k];
      RequestsIncrease(s, start, executed[..k]);
      if s.sent[at].cargo.Carried? {
        assert CargoSound(s.sent[at], start, s.requests, Taken(s.sent, at));
        forall q | q in earlier ensures q < s.sent[at].cargo.number {
          RequestsOfExact(s.sent, executed[..k], q);
          var p :| p in executed[..k] && s.sent[p].cargo == Carried(q);
          assert CargoSound(s.sent[p], start, s.requests, Taken(s.sent, p));
          TakenMonotone(s.sent, p, at);
        }
        IncreasingSnoc(earlier, s.sent[at].cargo.number);
      } else {
        assert RequestsOf(s.sent, executed) == earlier;
      }
    }
  }

  lemma {:induction false} ExecutedArrived(r: Receiver, sent: seq<Container>, arrivals: seq<nat>)
    requires InOrder(arrivals, |sent|) && r.executed == []
    ensures forall k :: 0 <= k < |RunServer(r, sent, arrivals).executed| ==>
              RunServer(r, sent, arrivals).executed[k] < |sent|
  {
    if arrivals != [] { ExecutedArrived(r, sent, arrivals[..|arrivals| - 1]); }
  }

  /** At most once and in order, for the requests of any client over any such channel. */
  lemma {:induction false} RequestsExecutedInOrder(conn: Client.ClientConn, ops: seq<ClientOp>,
                                                   server: Server.ServerConn, od: OdState, arrivals: seq<nat>)
    requires conn.nextSequence < 64
    requires InOrder(arrivals, |RunClient(conn, ops).sent|)
    ensures var s := RunClient(conn, ops);
            var executed := RunServer(Receiver(server, od, []), s.sent, arrivals).executed;
            && (forall k :: 0 <= k < |executed| ==> executed[k] < |s.sent|)
            && Increasing(RequestsOf(s.sent, executed))
  {
    var s := RunClient(conn, ops);
    var r := Receiver(server, od, []);
    ClientNumbersRequests(conn, ops);
    ExecutedAtMostOnce(r, s.sent, arrivals);
    ExecutedArrived(r, s.sent, arrivals);
    RequestsIncrease(s, conn.nextSequence, RunServer(r, s.sent, arrivals).executed);
  }
}
