/**
 * The server of SDO commands embedded in PDOs
 * (crates/powerlink-rs/src/sdo/embedded_server.rs; EPSG DS 301, section 6.3.3).
 */
module EmbeddedServers {
  import opened Wrappers
  import opened Bytes
  import opened ObjectValues
  import opened Entries
  import opened ObjectDictionaries
  import opened SdoCommands
  import opened EmbeddedCodec

  /** The last sequence number processed and the response waiting to be sent. */
  datatype ServerConn = ServerConn(lastSequence: u8, pending: Option<seq<u8>>)

  const IDLE_SERVER: ServerConn := ServerConn(0, None)

  // ---- Commands on the dictionary ----

  function MissingCode(d: Dictionary, index: u16): u32 { if index in d then 0x0609_0011 else 0x0602_0000 }

  function WriteErrorCode(e: Error): u32 {
    match e
    case StorageError(ReadOnlyObject) => 0x0601_0002
    case TypeMismatch => 0x0607_0010
    case ValidationError => 0x0609_0030
    case _ => 0x0800_0020
  }

  /** The data of a successful response or an abort code, and the dictionary afterwards. */
  function Outcome(req: PdoCommand, od: OdState): (Result<seq<u8>, u32>, OdState) {
    match req.commandId
    case ReadByIndex =>
      (match Read(od.entries, req.index, req.sub)
       case Some(v) => (Ok(Serialize(v)), od)
       case None => (Err(MissingCode(od.entries, req.index)), od))
    case WriteByIndex =>
      (match Read(od.entries, req.index, req.sub)
       case None => (Err(MissingCode(od.entries, req.index)), od)
       case Some(template) =>
         match Deserialize(req.data, template)
         case Err(_) => (Err(0x0607_0010), od)
         case Ok(v) =>
           var (r, od') := WriteSpec(od, req.index, req.sub, v);
           if r.Ok? then (Ok([]), od') else (Err(WriteErrorCode(r.error)), od'))
    case _ => (Err(0x0504_0001), od)
  }

  function ResponseTo(req: PdoCommand, outcome: Result<seq<u8>, u32>, sequence: u8): PdoCommand {
    PdoCommand(sequence, if outcome.Err? then 3 else 2, req.tid, true, outcome.Err?, Expedited, 0,
               if outcome.Err? then Nil else req.commandId, req.index, req.sub,
               if outcome.Err? then Le(outcome.error, 4) else outcome.value)
  }

  /** A payload is executed if it decodes and carries the next sequence number. */
  predicate Executes(conn: ServerConn, payload: seq<u8>) {
    && Decode(payload).Ok?
    && Decode(payload).value.sequence != conn.lastSequence
    && Decode(payload).value.sequence == (conn.lastSequence + 1) % 64
  }

  function Handled(conn: ServerConn, payload: seq<u8>, od: OdState): (ServerConn, OdState) {
    if !Executes(conn, payload) then (conn, od)
    else
      var req := Decode(payload).value;
      var (outcome, od') := Outcome(req, od);
      (ServerConn(req.sequence, Some(Encode(ResponseTo(req, outcome, req.sequence)))), od')
  }

  /** A container of a given length: the pending response cut or padded, or zeros. */
  function ResponseContainer(pending: Option<seq<u8>>, len: nat): (r: seq<u8>)
    ensures |r| == len
  {
    match pending
    case None => Zeros(len)
    case Some(p) => if |p| > len then p[..len] else PadTo(p, len)
  }

  function ConnOf(m: map<u16, ServerConn>, channel: u16): ServerConn {
    if channel in m then m[channel] else IDLE_SERVER
  }

  class EmbeddedSdoServer {
    var connections: map<u16, ServerConn>

    constructor ()
      ensures connections == map[]
    {
      connections := map[];
    }

    method HandleRequest(channel: u16, payload: seq<u8>, od: ObjectDictionary)
      modifies this, od
      ensures (ConnOf(connections, channel), od.State())
              == Handled(ConnOf(old(connections), channel), payload, old(od.State()))
      ensures connections == old(connections)[channel := ConnOf(connections, channel)]
    {
      if channel !in connections {
        connections := connections[channel := IDLE_SERVER];
      }
      var conn := HandleOn(connections[channel], payload, od);
      connections := connections[channel := conn];
    }

    /** The request of one channel. */
    method HandleOn(conn: ServerConn, payload: seq<u8>, od: ObjectDictionary) returns (conn': ServerConn)
      modifies od
      ensures (conn', od.State()) == Handled(conn, payload, old(od.State()))
    {
      var decoded := Decode(payload);
      if decoded.Err? {
        return conn;
      }
      var command := decoded.value;
      var expected := (conn.lastSequence + 1) % 64;
      if command.sequence == conn.lastSequence {
        return conn;
      } else if command.sequence != expected {
        return conn;
      }
      var response := ProcessCommand(command, od, command.sequence);
      return ServerConn(command.sequence, Some(response));
    }

    method ProcessCommand(req: PdoCommand, od: ObjectDictionary, sequence: u8) returns (bytes: seq<u8>)
      modifies od
      ensures bytes == Encode(ResponseTo(req, Outcome(req, old(od.State())).0, sequence))
      ensures od.State() == Outcome(req, old(od.State())).1
    {
      var outcome: Result<seq<u8>, u32> := Err(0x0504_0001);
      if req.commandId.ReadByIndex? {
        var value := Read(od.entries, req.index, req.sub);
        if value.Some? {
          outcome := Ok(Serialize(value.value));
        } else {
          outcome := Err(if req.index !in od.entries then 0x0602_0000 else 0x0609_0011);
        }
      } else if req.commandId.WriteByIndex? {
        var template := Read(od.entries, req.index, req.sub);
        if template.Some? {
          var value := Deserialize(req.data, template.value);
          if value.Ok? {
            var written := od.Write(req.index, req.sub, value.value);
            outcome := if written.Ok? then Ok([]) else Err(WriteErrorCode(written.error));
          } else {
            outcome := Err(0x0607_0010);
          }
        } else {
          outcome := Err(if req.index !in od.entries then 0x0602_0000 else 0x0609_0011);
        }
      }
      bytes := Encode(ResponseTo(req, outcome, sequence));
    }

    method GetPendingResponse(channel: u16, len: nat) returns (container: seq<u8>)
      modifies this
      ensures container == ResponseContainer(ConnOf(old(connections), channel).pending, len)
      ensures connections == old(connections)[channel := ConnOf(old(connections), channel).(pending := None)]
    {
      if channel !in connections {
        connections := connections[channel := IDLE_SERVER];
      }
      var conn := connections[channel];
      connections := connections[channel := conn.(pending := None)];
      if conn.pending.Some? {
        var payload := conn.pending.value;
        if |payload| > len {
          return payload[..len];
        } else {
          return PadTo(payload, len);
        }
      }
      return Zeros(len);
    }
  }

  // ---- What a write leaves and a read returns ----

  /** Two writes and reads that name the same location. */
  predicate SameLocation(a: PdoCommand, b: PdoCommand) { a.index == b.index && a.sub == b.sub }

  /** An aborted command changes nothing; any command keeps the shape of the dictionary. */
  lemma CommandsKeepShape(req: PdoCommand, od: OdState)
    ensures Outcome(req, od).0.Err? ==> Outcome(req, od).1 == od
    ensures SameShape(od.entries, Outcome(req, od).1.entries)
  {
    SameShapeEquivalence(od.entries, od.entries, od.entries);
    if req.commandId.WriteByIndex? && Read(od.entries, req.index, req.sub).Some?
       && Deserialize(req.data, Read(od.entries, req.index, req.sub).value).Ok? {
      var v := Deserialize(req.data, Read(od.entries, req.index, req.sub).value).value;
      WriteCases(od, req.index, req.sub, v);
      WriteExact(od.entries, req.index, req.sub, v, true);
      FailedWriteChangesNothing(od, req.index, req.sub, v);
    }
  }

  lemma FailedWriteChangesNothing(od: OdState, index: u16, sub: u8, v: ObjectValue)
    ensures WriteSpec(od, index, sub, v).0.Err? ==> WriteSpec(od, index, sub, v).1 == od
  {
    WriteExact(od.entries, index, sub, v, true);
  }

  /** A successful write to a location, read back: the bytes written, cut to the size of a fixed-size type. */
  lemma WriteThenRead(w: PdoCommand, r: PdoCommand, od: OdState)
    requires w.commandId.WriteByIndex? && r.commandId.ReadByIndex? && SameLocation(w, r)
    requires !IsCommandIndex(w.index) && HasLocation(od.entries, w.index, w.sub)
    requires Outcome(w, od).0.Ok?
    ensures Decodable(w.data, Value(od.entries, w.index, w.sub))
    ensures Outcome(r, Outcome(w, od).1).0 == Ok(Consumed(w.data, Value(od.entries, w.index, w.sub)))
    ensures OnlyChanges(od.entries, Outcome(w, od).1.entries, w.index, w.sub,
                        Deserialize(w.data, Value(od.entries, w.index, w.sub)).value)
  {
    var template := Value(od.entries, w.index, w.sub);
    DeserializeExact(w.data, template);
    var v := Deserialize(w.data, template).value;
    WriteExact(od.entries, w.index, w.sub, v, true);
  }

  /**
   * Sub-index 0 of an array is no location of its own: a successful write there, which only the
   * PDO mappings allow, stores nothing, so the count read back is the one written only by coincidence.
   */
  lemma CountWriteThenRead(w: PdoCommand, r: PdoCommand, od: OdState)
    requires w.commandId.WriteByIndex? && r.commandId.ReadByIndex? && SameLocation(w, r)
    requires !IsCommandIndex(w.index) && !HasLocation(od.entries, w.index, w.sub)
    requires Outcome(w, od).0.Ok?
    ensures IsMappingIndex(w.index) && w.sub == 0 && Outcome(w, od).1 == od
    ensures var count := Min(|od.entries[w.index].obj.values|, 254);
            && Outcome(r, Outcome(w, od).1).0 == Ok([count])
            && |w.data| >= 1
            && (Outcome(r, Outcome(w, od).1).0 == Ok(w.data[..1]) <==> w.data[0] == count)
  {
    var template := Read(od.entries, w.index, w.sub).value;
    DeserializeExact(w.data, template);
    var v := Deserialize(w.data, template).value;
    WriteExact(od.entries, w.index, w.sub, v, true);
    var count := Min(|od.entries[w.index].obj.values|, 254);
    assert template == Unsigned8(count);
    assert Le(count, 1) == [count] by { assert Le(count, 1) == [count % 0x100] + Le(count / 0x100, 0); }
  }

  /**
   * The container that goes out decodes to the response with its data cut to the length byte, or
   * is rejected when it is too short for that; so the data survives if and only if it has at most 255 bytes
   * and fits.
   */
  lemma {:induction false} ResponseOnTheWire(req: PdoCommand, outcome: Result<seq<u8>, u32>, sequence: u8, len: nat)
    requires sequence < 64
    ensures var c := ResponseTo(req, outcome, sequence);
            var received := Decode(ResponseContainer(Some(Encode(c)), len));
            && (if len < 8 + |c.data| % 0x100 then received.Err?
                else received == Ok(c.(validLength := |c.data| % 0x100, data := c.data[..|c.data| % 0x100])))
            && (received.Ok? && received.value.data == c.data <==> |c.data| <= 0xFF && 8 + |c.data| <= len)
  {
    var c := ResponseTo(req, outcome, sequence);
    CutOrPadded(c, len);
    if |c.data| > 0xFF { assert |c.data[..|c.data| % 0x100]| != |c.data|; }
  }

  /** A request with the next number is executed and its response kept. */
  lemma {:induction false} NextIsHandled(conn: ServerConn, payload: seq<u8>, od: OdState)
    requires conn.lastSequence < 64 && Decode(payload).Ok?
    requires Decode(payload).value.sequence == (conn.lastSequence + 1) % 64
    ensures var req := Decode(payload).value;
            Handled(conn, payload, od)
            == (ServerConn(req.sequence, Some(Encode(ResponseTo(req, Outcome(req, od).0, req.sequence)))),
                Outcome(req, od).1)
  {}

  /** A write and a read of its location that arrive under the next two numbers; the write is not refused. */
  ghost predicate WriteAndRead(conn: ServerConn, pw: seq<u8>, pr: seq<u8>, od: OdState) {
    && conn.lastSequence < 64 && Decode(pw).Ok? && Decode(pr).Ok?
    && var w, r := Decode(pw).value, Decode(pr).value;
       && w.sequence == (conn.lastSequence + 1) % 64 && r.sequence == (w.sequence + 1) % 64
       && w.commandId.WriteByIndex? && r.commandId.ReadByIndex? && SameLocation(w, r)
       && !IsCommandIndex(w.index) && HasLocation(od.entries, w.index, w.sub) && Outcome(w, od).0.Ok?
  }

  lemma {:induction false} AnswerOnTheWire(r: PdoCommand, data: seq<u8>, len: nat)
    requires r.sequence < 64 && |data| <= 0xFF
    ensures var answer := Decode(ResponseContainer(Some(Encode(ResponseTo(r, Ok(data), r.sequence))), len));
            if 8 + |data| <= len then
              && answer.Ok? && answer.value.data == data && answer.value.sequence == r.sequence
              && !answer.value.isAborted
            else answer.Err?
  {
    ResponseOnTheWire(r, Ok(data), r.sequence, len);
  }

  /** What the two leave pending. */
  lemma {:induction false} ReadIsAnswered(conn: ServerConn, pw: seq<u8>, pr: seq<u8>, od: OdState)
    requires WriteAndRead(conn, pw, pr, od)
    ensures var w, r := Decode(pw).value, Decode(pr).value;
            && Decodable(w.data, Value(od.entries, w.index, w.sub))
            && var (conn1, od1) := Handled(conn, pw, od);
               Handled(conn1, pr, od1) ==
               (ServerConn(r.sequence,
                           Some(Encode(ResponseTo(r, Ok(Consumed(w.data, Value(od.entries, w.index, w.sub))),
                                                  r.sequence)))),
                Outcome(w, od).1)
  {
    var w, r := Decode(pw).value, Decode(pr).value;
    NextIsHandled(conn, pw, od);
    WriteThenRead(w, r, od);
    NextIsHandled(Handled(conn, pw, od).0, pr, Outcome(w, od).1);
  }

  /**
   * End to end: the container that answers the read decodes to the bytes written, cut to the size
   * of a fixed-size type, and is rejected if and only if it is too short for them.
   */
  lemma {:induction false} WriteThenReadOnTheWire(conn: ServerConn, pw: seq<u8>, pr: seq<u8>, od: OdState, len: nat)
    requires WriteAndRead(conn, pw, pr, od)
    ensures var w, r := Decode(pw).value, Decode(pr).value;
            && Decodable(w.data, Value(od.entries, w.index, w.sub))
            && var (conn1, od1) := Handled(conn, pw, od);
               var answer := Decode(ResponseContainer(Handled(conn1, pr, od1).0.pending, len));
               var data := Consumed(w.data, Value(od.entries, w.index, w.sub));
               if 8 + |data| <= len then
                 && answer.Ok? && answer.value.data == data && answer.value.sequence == r.sequence
                 && !answer.value.isAborted
               else answer.Err?
  {
    var w, r := Decode(pw).value, Decode(pr).value;
    ReadIsAnswered(conn, pw, pr, od);
    DecodedIsRepresentable(pw);
    DecodedIsRepresentable(pr);
    AnswerOnTheWire(r, Consumed(w.data, Value(od.entries, w.index, w.sub)), len);
  }
}
