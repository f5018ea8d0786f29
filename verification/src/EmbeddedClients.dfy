/**
 * The client of SDO commands embedded in PDOs
 * (crates/powerlink-rs/src/sdo/embedded_client.rs; EPSG DS 301, section 6.3.3).
 */
module EmbeddedClients {
  import opened Wrappers
  import opened Bytes
  import opened SdoCommands
  import opened EmbeddedCodec

  datatype Request = Request(commandId: CommandId, index: u16, sub: u8, data: seq<u8>)

  datatype ClientConn = ClientConn(lastSequence: u8, nextSequence: u8, queue: seq<Request>)

  const IDLE_CLIENT: ClientConn := ClientConn(0, 0, [])

  predicate IsClientChannel(channel: u16) { 0x1280 <= channel <= 0x12FF }

  /** The command that carries a request. */
  function CommandOf(r: Request, sequence: u8): PdoCommand {
    PdoCommand(sequence, 2, 1, false, false, Expedited, 0, r.commandId, r.index, r.sub, r.data)
  }

  predicate Fits(r: Request, len: nat) { 8 + |r.data| <= len }

  /** The next container: the front request, or zeros when there is none or it does not fit. */
  function NextContainer(conn: ClientConn, len: nat): (ClientConn, seq<u8>) {
    if conn.queue == [] then (conn, Zeros(len))
    else
      var r := conn.queue[0];
      var conn' := conn.(queue := conn.queue[1..], nextSequence := (conn.nextSequence + 1) % 64);
      (conn', if Fits(r, len) then PadTo(Encode(CommandOf(r, conn.nextSequence)), len) else Zeros(len))
  }

  /** A response is taken if it answers the latest request. */
  predicate Answers(conn: ClientConn, payload: seq<u8>) {
    Decode(payload).Ok? && Decode(payload).value.sequence == (conn.nextSequence + 63) % 64
  }

  function AfterResponse(conn: ClientConn, payload: seq<u8>): ClientConn {
    if Answers(conn, payload) then conn.(lastSequence := Decode(payload).value.sequence) else conn
  }

  /** The answers at which the source stops: it slices the code off an abort without looking at its length. */
  predicate Stops(conn: ClientConn, payload: seq<u8>) {
    Answers(conn, payload) && Decode(payload).value.isAborted && Slice(Decode(payload).value.data, 0, 4).None?
  }

  /** Those are the aborts in answer to the latest request with fewer than four data bytes. */
  lemma StopsExactly(conn: ClientConn, payload: seq<u8>)
    ensures Stops(conn, payload) <==>
              && Answers(conn, payload) && Decode(payload).value.isAborted && |Decode(payload).value.data| < 4
  {}

  /** Such an answer can be given to every request. */
  lemma ShortAbortStops(conn: ClientConn, tail: seq<u8>)
    ensures var abort := PdoCommand((conn.nextSequence + 63) % 64, 3, 1, true, true, Expedited, 0, Nil, 0, 0, []);
            Stops(conn, Encode(abort) + tail)
  {
    DecodeOfSmall(PdoCommand((conn.nextSequence + 63) % 64, 3, 1, true, true, Expedited, 0, Nil, 0, 0, []), tail);
  }

  lemma WrappingDecrement(n: u8)
    ensures ((n - 1) % 0x100) % 64 == (n + 63) % 64
  {
    assert (n - 1) % 0x100 == if n == 0 then 0xFF else n - 1;
  }

  function ConnOf(m: map<u16, ClientConn>, channel: u16): ClientConn {
    if channel in m then m[channel] else IDLE_CLIENT
  }

  /** The connections with one more request at the end of a channel's queue. */
  function Enqueued(m: map<u16, ClientConn>, channel: u16, r: Request): map<u16, ClientConn> {
    m[channel := ConnOf(m, channel).(queue := ConnOf(m, channel).queue + [r])]
  }

  /** The connections after several requests for a channel. */
  function EnqueuedAll(m: map<u16, ClientConn>, channel: u16, rs: seq<Request>): map<u16, ClientConn> {
    if rs == [] then m else Enqueued(EnqueuedAll(m, channel, rs[..|rs| - 1]), channel, rs[|rs| - 1])
  }

  /** Requests wait in the order in which they came, behind those before, and touch nothing but their channel. */
  lemma {:induction false} QueuedInOrder(m: map<u16, ClientConn>, channel: u16, rs: seq<Request>)
    ensures var m' := EnqueuedAll(m, channel, rs);
            && ConnOf(m', channel) == ConnOf(m, channel).(queue := ConnOf(m, channel).queue + rs)
            && forall c: u16 :: c != channel ==> (c in m' <==> c in m) && ConnOf(m', c) == ConnOf(m, c)
  {
    if rs == [] {
      assert ConnOf(m, channel).queue + rs == ConnOf(m, channel).queue;
    } else {
      QueuedInOrder(m, channel, rs[..|rs| - 1]);
      assert rs == rs[..|rs| - 1] + [rs[|rs| - 1]];
    }
  }

  /** The channels are the 128 objects that differ from 0x1280 in the last seven bits only. */
  lemma ChannelsExactly(channel: u16)
    ensures IsClientChannel(channel) <==> channel / 0x80 * 0x80 == 0x1280
  {}

  class EmbeddedSdoClient {
    var connections: map<u16, ClientConn>

    constructor ()
      ensures connections == map[]
    {
      connections := map[];
    }

    method Enqueue(channel: u16, r: Request)
      modifies this
      ensures connections == Enqueued(old(connections), channel, r)
    {
      if channel !in connections {
        connections := connections[channel := IDLE_CLIENT];
      }
      var conn := connections[channel];
      connections := connections[channel := conn.(queue := conn.queue + [r])];
    }

    method QueueRead(channel: u16, index: u16, sub: u8) returns (r: Result<(), Error>)
      modifies this
      ensures !IsClientChannel(channel) ==> r == Err(InvalidChannel) && connections == old(connections)
      ensures IsClientChannel(channel) ==>
                && r == Ok(())
                && connections == Enqueued(old(connections), channel, Request(ReadByIndex, index, sub, []))
    {
      if !(0x1280 <= channel <= 0x12FF) {
        return Err(InvalidChannel);
      }
      Enqueue(channel, Request(ReadByIndex, index, sub, []));
      return Ok(());
    }

    method QueueWrite(channel: u16, index: u16, sub: u8, data: seq<u8>) returns (r: Result<(), Error>)
      modifies this
      ensures !IsClientChannel(channel) ==> r == Err(InvalidChannel) && connections == old(connections)
      ensures IsClientChannel(channel) ==>
                && r == Ok(())
                && connections == Enqueued(old(connections), channel, Request(WriteByIndex, index, sub, data))
    {
      if !(0x1280 <= channel <= 0x12FF) {
        return Err(InvalidChannel);
      }
      Enqueue(channel, Request(WriteByIndex, index, sub, data));
      return Ok(());
    }

    /** Takes a response; stopped when the source stops at the slice of the abort code. */
    method HandleResponse(channel: u16, payload: seq<u8>) returns (stopped: bool)
      modifies this
      ensures connections == if channel in old(connections)
                             then old(connections)[channel := AfterResponse(old(connections)[channel], payload)]
                             else old(connections)
      ensures stopped <==> channel in old(connections) && Stops(old(connections)[channel], payload)
    {
      if channel !in connections {
        return false;
      }
      var conn := connections[channel];
      var response := Decode(payload);
      if response.Err? {
        return false;
      }
      var latest := ((conn.nextSequence - 1) % 0x100) % 64;
      WrappingDecrement(conn.nextSequence);
      if response.value.sequence != latest {
        return false;
      }
      connections := connections[channel := conn.(lastSequence := response.value.sequence)];
      if response.value.isAborted {
        var code := Slice(response.value.data, 0, 4);
        if code.None? {
          return true;
        }
      }
      return false;
    }

    method GetPendingRequest(channel: u16, len: nat) returns (container: seq<u8>)
      modifies this
      ensures container == NextContainer(ConnOf(old(connections), channel), len).1
      ensures connections == old(connections)[channel := NextContainer(ConnOf(old(connections), channel), len).0]
    {
      if channel !in connections {
        connections := connections[channel := IDLE_CLIENT];
      }
      var conn := connections[channel];
      if conn.queue == [] {
        return Zeros(len);
      }
      var request := conn.queue[0];
      var cmd := CommandOf(request, conn.nextSequence);
      conn := ClientConn(conn.lastSequence, (conn.nextSequence + 1) % 64, conn.queue[1..]);
      connections := connections[channel := conn];
      var payload := Encode(cmd);
      if |payload| > len {
        return Zeros(len);
      }
      return PadTo(payload, len);
    }
  }
}
