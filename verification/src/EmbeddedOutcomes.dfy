/**
 * What a client of the embedded SDO server gets to see of a command: the answer that decodes from the
 * container, and exactly when and with which code it is an abort
 * (crates/powerlink-rs/src/sdo/embedded_server.rs:90-178; EPSG DS 301, section 6.3.3).
 */
module EmbeddedOutcomes {
  import opened Wrappers
  import opened Bytes
  import opened ObjectValues
  import opened Entries
  import opened Persistence
  import opened ObjectDictionaries
  import opened PdoMapping
  import opened SdoCommands
  import opened EmbeddedCodec
  import opened EmbeddedServers

  /** The next request of a channel. */
  predicate IsNext(conn: ServerConn, payload: seq<u8>) {
    && conn.lastSequence < 64 && Decode(payload).Ok?
    && Decode(payload).value.sequence == (conn.lastSequence + 1) % 64
  }

  /** What the client decodes from a container of a given length after a request has been handled. */
  function AnswerTo(conn: ServerConn, payload: seq<u8>, od: OdState, len: nat): Result<PdoCommand, Error> {
    Decode(ResponseContainer(Handled(conn, payload, od).0.pending, len))
  }

  /** The fields that every answer copies from its request. */
  predicate Answers(a: PdoCommand, req: PdoCommand) {
    && a.sequence == req.sequence && a.tid == req.tid && a.index == req.index && a.sub == req.sub
    && a.isResponse && a.segmentation == Expedited && a.validLength == |a.data|
  }

  /** An abort with a code, in state Error and under the command Nil. */
  predicate IsAbort(a: Result<PdoCommand, Error>, req: PdoCommand, code: u32) {
    && a.Ok? && Answers(a.value, req)
    && a.value.isAborted && a.value.connection == 3 && a.value.commandId == Nil
    && |a.value.data| == 4 && FromLe(a.value.data) == code
  }

  /** A success that carries some bytes, in state Valid and under the command of the request. */
  predicate IsSuccess(a: Result<PdoCommand, Error>, req: PdoCommand, data: seq<u8>) {
    && a.Ok? && Answers(a.value, req)
    && !a.value.isAborted && a.value.connection == 2 && a.value.commandId == req.commandId
    && a.value.data == data
  }

  lemma {:induction false} AbortOnTheWire(req: PdoCommand, code: u32, len: nat)
    requires req.sequence < 64 && len >= 12
    ensures IsAbort(Decode(ResponseContainer(Some(Encode(ResponseTo(req, Err(code), req.sequence))), len)), req, code)
  {
    assert Span(4) == 0x1_0000_0000 by { SpanValues(); }
    FromLeOfLe(code, 4);
    var c := ResponseTo(req, Err(code), req.sequence);
    CutOrPadded(c, len);
    assert c.data[..4] == c.data;
  }

  lemma {:induction false} SuccessOnTheWire(req: PdoCommand, data: seq<u8>, len: nat)
    requires req.sequence < 64 && len >= 8 + |data| % 0x100
    ensures IsSuccess(Decode(ResponseContainer(Some(Encode(ResponseTo(req, Ok(data), req.sequence))), len)), req,
                      data[..|data| % 0x100])
  {
    CutOrPadded(ResponseTo(req, Ok(data), req.sequence), len);
  }

  /** The answer is that of the outcome; the container is long enough for an abort. */
  lemma {:induction false} AnswerOfOutcome(conn: ServerConn, payload: seq<u8>, od: OdState, len: nat)
    requires IsNext(conn, payload) && len >= 12
    ensures var req := Decode(payload).value;
            var (outcome, od') := Outcome(req, od);
            && Handled(conn, payload, od).1 == od'
            && (outcome.Err? ==> IsAbort(AnswerTo(conn, payload, od, len), req, outcome.error))
            && (outcome.Ok? && len >= 8 + |outcome.value| % 0x100 ==>
                  IsSuccess(AnswerTo(conn, payload, od, len), req, outcome.value[..|outcome.value| % 0x100]))
  {
    var req := Decode(payload).value;
    NextIsHandled(conn, payload, od);
    DecodedIsRepresentable(payload);
    var outcome := Outcome(req, od).0;
    if outcome.Err? { AbortOnTheWire(req, outcome.error, len); }
    if outcome.Ok? && len >= 8 + |outcome.value| % 0x100 { SuccessOnTheWire(req, outcome.value, len); }
  }

  // ---- Reading ----

  /** What is readable: the value of a variable under 0, elements from 1 on, and their number under 0. */
  lemma {:induction false} ReadableExactly(d: Dictionary, index: u16, sub: u8)
    ensures Read(d, index, sub).Some? <==>
              index in d && if d[index].obj.Variable? then sub == 0 else sub <= |d[index].obj.values|
    ensures Read(d, index, sub).Some? ==>
              Read(d, index, sub).value ==
              if d[index].obj.Variable? then d[index].obj.value
              else if sub > 0 then d[index].obj.values[sub - 1]
              else Unsigned8(if |d[index].obj.values| > 254 then 254 else |d[index].obj.values|)
  {}

  /**
   * A read is answered without abort if and only if the location is readable, and then with its
   * serialised value; otherwise the code says whether the object or the sub-index is missing. Nothing changes.
   */
  lemma {:induction false} ReadAnswered(conn: ServerConn, payload: seq<u8>, od: OdState, len: nat)
    requires IsNext(conn, payload) && len >= 12 && Decode(payload).value.commandId.ReadByIndex?
    ensures Handled(conn, payload, od).1 == od
    ensures var req, a := Decode(payload).value, AnswerTo(conn, payload, od, len);
            match Read(od.entries, req.index, req.sub)
            case Some(v) =>
              var data := Serialize(v);
              len >= 8 + |data| % 0x100 ==> IsSuccess(a, req, data[..|data| % 0x100])
            case None => IsAbort(a, req, if req.index in od.entries then 0x0609_0011 else 0x0602_0000)
  {
    AnswerOfOutcome(conn, payload, od, len);
  }

  /** Every other command than reading and writing by index is refused as unknown. */
  lemma {:induction false} OthersAborted(conn: ServerConn, payload: seq<u8>, od: OdState, len: nat)
    requires IsNext(conn, payload) && len >= 12
    requires !Decode(payload).value.commandId.ReadByIndex? && !Decode(payload).value.commandId.WriteByIndex?
    ensures Handled(conn, payload, od).1 == od
    ensures IsAbort(AnswerTo(conn, payload, od, len), Decode(payload).value, 0x0504_0001)
  {
    AnswerOfOutcome(conn, payload, od, len);
  }

  // ---- Writing ----

  /** A text as the bytes of its characters. */
  predicate Spells(bytes: seq<u8>, s: string) {
    |bytes| == |s| && forall k :: 0 <= k < |s| ==> bytes[k] == s[k] as int
  }

  /** The signature of a storage command, for a sub-index that names a list. */
  predicate IsCommand(v: ObjectValue, sub: u8, signature: string) {
    v.VisibleString? && Spells(v.text, signature) && sub > 0
  }

  lemma {:induction false} TextsSpelled(v: ObjectValue)
    ensures v == VisibleString(SaveText()) <==> v.VisibleString? && Spells(v.text, "save")
    ensures v == VisibleString(LoadText()) <==> v.VisibleString? && Spells(v.text, "load")
  {
    if v.VisibleString? && Spells(v.text, "save") { assert v.text == SAVE; }
    if v.VisibleString? && Spells(v.text, "load") { assert v.text == LOAD; }
  }

  /** The count of a PDO mapping is written. */
  predicate WritesCount(req: PdoCommand) {
    req.sub == 0 && (0x1600 <= req.index <= 0x16FF || 0x1A00 <= req.index <= 0x1AFF)
  }

  /** The first n elements are all there and are mapping entries. */
  predicate EntriesThere(d: Dictionary, index: u16, n: u8) {
    index in d && d[index].obj.Array? && n <= |d[index].obj.values|
    && forall i :: 0 <= i < n ==> d[index].obj.values[i].Unsigned64?
  }

  /** They also end within the payload limit. */
  predicate EntriesFit(d: Dictionary, index: u16, n: u8) {
    index in d && d[index].obj.Array? && forall i :: 0 <= i < n ==>
        FitsAt(d[index].obj.values, i, PayloadLimit(d, index))
  }

  /** Why a write is refused, in the order in which the causes are looked at. */
  datatype Cause =
    | NoObject
    | NoSubIndex
    | WrongData
    | WrongSignature
    | NotStored
    | CountOfWrongType
    | CountOfNoArray
    | EntriesMissing
    | EntriesTooLong
    | Protected
    | CountFixed

  /** The storage behind a command can carry it out. */
  predicate CarriesOut(od: OdState, index: u16) {
    od.storage.Some? && if index == 0x1010 then od.storage.value.health.save else od.storage.value.health.request
  }

  /** A cause applies to a write of value v, decoded from the request. */
  predicate Applies(cause: Cause, od: OdState, req: PdoCommand, v: ObjectValue) {
    var d, i, s := od.entries, req.index, req.sub;
    match cause
    case WrongSignature =>
      (i == 0x1010 && !IsCommand(v, s, "save")) || (i == 0x1011 && !IsCommand(v, s, "load"))
    case NotStored =>
      ((i == 0x1010 && IsCommand(v, s, "save")) || (i == 0x1011 && IsCommand(v, s, "load"))) && !CarriesOut(od, i)
    case CountOfWrongType => WritesCount(req) && !v.Unsigned8?
    case CountOfNoArray => WritesCount(req) && v.Unsigned8? && v.uint8 > 0 && i in d && !d[i].obj.Array?
    case EntriesMissing =>
      && WritesCount(req) && v.Unsigned8? && i in d && d[i].obj.Array? && !EntriesThere(d, i, v.uint8)
    case EntriesTooLong =>
      && WritesCount(req) && v.Unsigned8? && EntriesThere(d, i, v.uint8) && !EntriesFit(d, i, v.uint8)
    case Protected => i in d && (d[i].access == Some(ReadOnly) || d[i].access == Some(Constant))
    case CountFixed => i in d && !d[i].obj.Variable? && s == 0 && !WritesCount(req)
    case _ => false
  }

  /** The cause of a refusal of a decoded value, or None when it is accepted. */
  function CauseOf(od: OdState, req: PdoCommand, v: ObjectValue): Option<Cause> {
    if req.index == 0x1010 || req.index == 0x1011 then
      if Applies(WrongSignature, od, req, v) then Some(WrongSignature)
      else if Applies(NotStored, od, req, v) then Some(NotStored)
      else None
    else if Applies(CountOfWrongType, od, req, v) then Some(CountOfWrongType)
    else if Applies(CountOfNoArray, od, req, v) then Some(CountOfNoArray)
    else if Applies(EntriesMissing, od, req, v) then Some(EntriesMissing)
    else if Applies(EntriesTooLong, od, req, v) then Some(EntriesTooLong)
    else if Applies(Protected, od, req, v) then Some(Protected)
    else if Applies(CountFixed, od, req, v) then Some(CountFixed)
    else None
  }

  /** The abort code of each cause. */
  function CodeOf(cause: Cause): u32 {
    match cause
    case NoObject => 0x0602_0000
    case NoSubIndex => 0x0609_0011
    case WrongData => 0x0607_0010
    case WrongSignature => 0x0800_0020
    case NotStored => 0x0800_0020
    case CountOfWrongType => 0x0607_0010
    case CountOfNoArray => 0x0800_0020
    case EntriesMissing => 0x0609_0030
    case EntriesTooLong => 0x0800_0020
    case Protected => 0x0601_0002
    case CountFixed => 0x0800_0020
  }

  /** Validation of a count, by its causes. */
  lemma {:induction false} ValidationCauses(d: Dictionary, index: u16, n: u8)
    requires IsMappingIndex(index)
    ensures Validation(d, index, n) ==
            if n == 0 then Ok(())
            else if index !in d || !d[index].obj.Array? then Err(ObjectNotFound)
            else if !EntriesThere(d, index, n) then Err(ValidationError)
            else if !EntriesFit(d, index, n) then Err(PdoMapOverrun)
            else Ok(())
  {
    if n > 0 && index in d && d[index].obj.Array? {
      ValidationExact(d, index, n);
      BitsThere(d[index].obj.values, n);
    }
  }

  /** Required bits are there exactly when all entries are, and they fit exactly when all entries fit. */
  lemma {:induction false} BitsThere(values: seq<ObjectValue>, n: nat)
    ensures RequiredBits(values, n).Ok? <==> n <= |values| && forall i :: 0 <= i < n ==> values[i].Unsigned64?
    ensures RequiredBits(values, n).Err? ==> RequiredBits(values, n) == Err(ValidationError)
  {
    if n > 0 { BitsThere(values, n - 1); }
  }

  /** A value does what its cause says. */
  ghost predicate RefusedAsCaused(od: OdState, req: PdoCommand, v: ObjectValue) {
    var (r, od') := WriteSpec(od, req.index, req.sub, v);
    match CauseOf(od, req, v)
    case None => r.Ok?
    case Some(cause) => od' == od && r.Err? && WriteErrorCode(r.error) == CodeOf(cause)
  }

  lemma {:induction false} CommandRefused(od: OdState, req: PdoCommand, v: ObjectValue)
    requires req.index == 0x1010 || req.index == 0x1011
    ensures RefusedAsCaused(od, req, v)
  {
    TextsSpelled(v);
  }

  /** A count that validation refuses. */
  lemma {:induction false} CountInvalid(od: OdState, req: PdoCommand, v: ObjectValue)
    requires WritesCount(req) && req.index in od.entries
    requires v.Unsigned8? ==> Validation(od.entries, req.index, v.uint8).Err?
    ensures RefusedAsCaused(od, req, v)
  {
    if v.Unsigned8? { ValidationCauses(od.entries, req.index, v.uint8); }
  }

  /** A count that only an access right can stand against. */
  lemma {:induction false} CountValid(od: OdState, req: PdoCommand, v: ObjectValue)
    requires WritesCount(req) && Read(od.entries, req.index, req.sub).Some?
    requires SameType(Read(od.entries, req.index, req.sub).value, v)
    requires v.Unsigned8? && Validation(od.entries, req.index, v.uint8).Ok?
    ensures RefusedAsCaused(od, req, v)
  {
    ValidationCauses(od.entries, req.index, v.uint8);
    InternalCount(od.entries, req.index, v);
  }

  /** The internal write of a count. */
  lemma {:induction false} InternalCount(d: Dictionary, index: u16, v: ObjectValue)
    requires IsMappingIndex(index) && Read(d, index, 0).Some? && SameType(Read(d, index, 0).value, v) && v.Unsigned8?
    ensures WriteOutcome(d, index, 0, v, true) == if IsProtected(d[index])
            then Err(StorageError(ReadOnlyObject)) else Ok(())
    ensures IsProtected(d[index]) ==> Written(d, index, 0, v, true) == d
  {}

  /** The count of a PDO mapping: validation first, then the access right. */
  lemma {:induction false} CountRefused(od: OdState, req: PdoCommand, v: ObjectValue)
    requires WritesCount(req) && Read(od.entries, req.index, req.sub).Some?
    requires SameType(Read(od.entries, req.index, req.sub).value, v)
    ensures RefusedAsCaused(od, req, v)
  {
    if v.Unsigned8? && Validation(od.entries, req.index, v.uint8).Ok? {
      CountValid(od, req, v);
    } else {
      CountInvalid(od, req, v);
    }
  }

  /** The internal write to a readable place that is no count of a PDO mapping, with a value of its type. */
  lemma {:induction false} InternalPlain(d: Dictionary, index: u16, sub: u8, v: ObjectValue)
    requires Read(d, index, sub).Some? && SameType(Read(d, index, sub).value, v) && !(sub == 0 && IsMappingIndex(index))
    ensures WriteOutcome(d, index, sub, v, true) ==
            if IsProtected(d[index]) then Err(StorageError(ReadOnlyObject))
            else if HasLocation(d, index, sub) then Ok(())
            else Err(StorageError(CountNotWritable))
    ensures WriteOutcome(d, index, sub, v, true).Err? ==> Written(d, index, sub, v, true) == d
  {}

  lemma {:induction false} PlainCause(od: OdState, req: PdoCommand, v: ObjectValue)
    requires !WritesCount(req) && req.index != 0x1010 && req.index != 0x1011
    requires Read(od.entries, req.index, req.sub).Some?
    ensures CauseOf(od, req, v) ==
            if IsProtected(od.entries[req.index]) then Some(Protected)
            else if HasLocation(od.entries, req.index, req.sub) then None
            else Some(CountFixed)
  {}

  lemma {:induction false} PlainWrite(od: OdState, index: u16, sub: u8, v: ObjectValue)
    requires !(sub == 0 && IsMappingIndex(index)) && index != 0x1010 && index != 0x1011
    ensures WriteSpec(od, index, sub, v)
         == (WriteOutcome(od.entries, index, sub, v, true), od.(entries := Written(od.entries, index, sub, v, true)))
  {}

  lemma {:induction false} PlainRefused(od: OdState, req: PdoCommand, v: ObjectValue)
    requires !WritesCount(req) && req.index != 0x1010 && req.index != 0x1011
    requires Read(od.entries, req.index, req.sub).Some?
    requires SameType(Read(od.entries, req.index, req.sub).value, v)
    ensures RefusedAsCaused(od, req, v)
  {
    PlainCause(od, req, v);
    PlainWrite(od, req.index, req.sub, v);
    InternalPlain(od.entries, req.index, req.sub, v);
    PlainJoined(od, req, v);
  }

  lemma {:induction false} PlainJoined(od: OdState, req: PdoCommand, v: ObjectValue)
    requires req.index in od.entries
    requires CauseOf(od, req, v) == if IsProtected(od.entries[req.index]) then Some(Protected)
                                    else if HasLocation(od.entries, req.index, req.sub) then None
                                    else Some(CountFixed)
    requires WriteSpec(od, req.index, req.sub, v).0 ==
             if IsProtected(od.entries[req.index]) then Err(StorageError(ReadOnlyObject))
             else if HasLocation(od.entries, req.index, req.sub) then Ok(())
             else Err(StorageError(CountNotWritable))
    requires WriteSpec(od, req.index, req.sub, v).0.Err? ==> WriteSpec(od, req.index, req.sub, v).1 == od
    ensures RefusedAsCaused(od, req, v)
  {}

  /** The refusal of a decoded value. */
  lemma {:induction false} ValueRefused(od: OdState, req: PdoCommand, v: ObjectValue)
    requires Read(od.entries, req.index, req.sub).Some?
    requires SameType(Read(od.entries, req.index, req.sub).value, v)
    ensures RefusedAsCaused(od, req, v)
  {
    if req.index == 0x1010 || req.index == 0x1011 { CommandRefused(od, req, v); }
    else if WritesCount(req) { CountRefused(od, req, v); }
    else { PlainRefused(od, req, v); }
  }

  /** The cause of a refused write, told from the request and the dictionary. */
  function WriteCause(od: OdState, req: PdoCommand): Option<Cause> {
    if req.index !in od.entries then Some(NoObject)
    else
      match Read(od.entries, req.index, req.sub)
      case None => Some(NoSubIndex)
      case Some(template) =>
        if !Decodable(req.data, template) then Some(WrongData)
        else
          DecodesDecodable(req.data, template);
          CauseOf(od, req, Deserialize(req.data, template).value)
  }

  lemma {:induction false} WriteOutcomes(od: OdState, req: PdoCommand)
    requires req.commandId.WriteByIndex?
    ensures match WriteCause(od, req)
            case None => Outcome(req, od).0 == Ok([])
            case Some(cause) => Outcome(req, od) == (Err(CodeOf(cause)), od)
  {
    if Read(od.entries, req.index, req.sub).Some? {
      var template := Read(od.entries, req.index, req.sub).value;
      DeserializeExact(req.data, template);
      if Decodable(req.data, template) { ValueRefused(od, req, Deserialize(req.data, template).value); }
    }
  }

  /**
   * A write is answered without abort if and only if no cause applies to it: the location is readable,
   * the bytes decode to its type, and then, for a storage command, signature and storage are right, for the count of a
   * PDO mapping the entries are there and fit, and otherwise no access right or fixed count stands against it.
   * Each cause has its code, and a refused write changes nothing.
   */
  lemma {:induction false} WriteAnswered(conn: ServerConn, payload: seq<u8>, od: OdState, len: nat)
    requires IsNext(conn, payload) && len >= 12 && Decode(payload).value.commandId.WriteByIndex?
    ensures var req, a := Decode(payload).value, AnswerTo(conn, payload, od, len);
            match WriteCause(od, req)
            case None => IsSuccess(a, req, [])
            case Some(cause) => IsAbort(a, req, CodeOf(cause)) && Handled(conn, payload, od).1 == od
  {
    AnswerOfOutcome(conn, payload, od, len);
    WriteOutcomes(od, Decode(payload).value);
    var none: seq<u8> := [];
    assert none[..|none| % 0x100] == none;
  }

  /** For a location that is neither a command nor a count, that is what the dictionary accepts. */
  lemma {:induction false} PlainWriteAccepted(od: OdState, req: PdoCommand)
    requires req.commandId.WriteByIndex? && !WritesCount(req) && req.index != 0x1010 && req.index != 0x1011
    ensures WriteCause(od, req).None? <==>
              && HasLocation(od.entries, req.index, req.sub)
              && Decodable(req.data, Value(od.entries, req.index, req.sub))
              && Accepts(od.entries, req.index, req.sub,
                         Deserialize(req.data, Value(od.entries, req.index, req.sub)).value, true)
  {
    if HasLocation(od.entries, req.index, req.sub) {
      DeserializeExact(req.data, Value(od.entries, req.index, req.sub));
    }
  }

  /**
   * The stored type of a command object decides whether its command can be given at all: where it holds
   * no text, no write over the embedded server ever saves or restores anything.
   */
  lemma {:induction false} CommandNeedsText(od: OdState, req: PdoCommand)
    requires req.commandId.WriteByIndex? && (req.index == 0x1010 || req.index == 0x1011)
    requires var r := Read(od.entries, req.index, req.sub); r.Some? ==> !r.value.VisibleString?
    ensures WriteCause(od, req).Some? && Outcome(req, od).0.Err? && Outcome(req, od).1 == od
  {
    if Read(od.entries, req.index, req.sub).Some? {
      DeserializeExact(req.data, Read(od.entries, req.index, req.sub).value);
    }
    WriteOutcomes(od, req);
  }

  /** So it is with the command objects that a boot adds: they hold numbers. */
  lemma {:induction false} BootedCommandsFail(firmware: Dictionary, storage: Option<Storage>, req: PdoCommand)
    requires req.commandId.WriteByIndex? && (req.index == 0x1010 || req.index == 0x1011) && req.index !in firmware
    ensures Outcome(req, OdState(Populated(firmware), storage)).0.Err?
  {
    CommandObjects(firmware, req.index);
    var values := Populated(firmware)[req.index].obj.values;
    assert forall k :: 0 <= k < |values| ==> values[k].Unsigned32?;
    CommandNeedsText(OdState(Populated(firmware), storage), req);
  }
}
