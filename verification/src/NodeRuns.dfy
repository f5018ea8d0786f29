/**
 * Runs of a node under NMT events, public writes, logged errors and received PDOs: the state mirror
 * and the error history.
 */
module NodeRuns {
  import opened Wrappers
  import opened Bytes
  import opened ObjectValues
  import opened Entries
  import opened Persistence
  import opened ObjectDictionaries
  import opened NmtStates
  import opened NmtMachines
  import opened PdoMapping
  import EmbeddedCodec
  import Pdo = PdoHandlers
  import Server = EmbeddedServers
  import Client = EmbeddedClients

  /** The embedded SDO channels of a node. */
  datatype Channels = Channels(server: map<u16, Server.ServerConn>, client: map<u16, Client.ClientConn>)

  datatype NodeOp =
    | Nmt(event: NmtEvent)
    | Write(index: u16, sub: u8, value: ObjectValue)
    | Log(record: seq<u8>)
    | Receive(source: u8, payload: seq<u8>, version: u8, ready: bool)

  datatype Node = Node(role: Role, state: NmtState, od: OdState, channels: Channels)

  /** The node as the PDO handler sees it. */
  function PdoState(n: Node): Pdo.NodeState {
    Pdo.NodeState(n.od, n.channels.server, n.channels.client, [], false)
  }

  function Do(n: Node, op: NodeOp): Node {
    match op
    case Nmt(e) => n.(state := NextState(n.role, n.state, e), od := StepOd(n.role, n.state, n.od, e))
    case Write(i, s, v) => n.(od := WriteSpec(n.od, i, s, v).1)
    case Log(r) => n.(od := n.od.(entries := Logged(n.od.entries, r)))
    case Receive(source, payload, version, ready) =>
      var p := Pdo.Consumption(PdoState(n), source, payload, version, ready);
      n.(od := p.od, channels := Channels(p.server, p.client))
  }

  function Run(n: Node, ops: seq<NodeOp>): Node {
    if ops == [] then n else Do(Run(n, ops[..|ops| - 1]), ops[|ops| - 1])
  }

  // ---- 0x1F8C mirrors the state ----

  /** 0x1F8C is a protected UNSIGNED8 variable, and no default or stored value could change its type. */
  ghost predicate StateObjectSound(od: OdState) {
    && HasStateObject(od.entries)
    && var e := od.entries[0x1F8C];
       && IsProtected(e)
       && (e.defaultValue.Some? ==> e.defaultValue.value.Unsigned8?)
       && ((0x1F8C, 0) in Loadable(od.storage) ==> Loadable(od.storage)[(0x1F8C, 0)].Unsigned8?)
  }

  predicate Mirrors(n: Node) { ReadU8(n.od.entries, 0x1F8C, 0) == Some(Code(n.state)) }

  lemma SavedState(d: Dictionary, list: u8)
    requires HasStateObject(d) && IsProtected(d[0x1F8C])
    ensures (0x1F8C, 0) !in SavedParameters(d, list)
  {}

  lemma NmtKeepsState(n: Node, e: NmtEvent)
    requires StateObjectSound(n.od)
    ensures var n' := Do(n, Nmt(e));
            && StateObjectSound(n'.od)
            && if IsReset(e) || n'.state != n.state then Mirrors(n')
               else n'.od.entries == n.od.entries
  {
    if IsReset(e) {
      ResetPointwise(n.od.entries, e, Loadable(n.od.storage), 0x1F8C);
    }
  }

  /** A checked write never changes a protected object. */
  lemma ProtectedIsKept(d: Dictionary, i: u16, s: u8, v: ObjectValue, j: u16)
    requires j in d && IsProtected(d[j])
    ensures j in Written(d, i, s, v, true) && Written(d, i, s, v, true)[j] == d[j]
  {}

  /** A save never stores the protected state object. */
  lemma StoreOnStorage(od: OdState, list: u8)
    requires HasStateObject(od.entries) && IsProtected(od.entries[0x1F8C])
    requires (0x1F8C, 0) in Loadable(StoreSpec(od, list).1.storage)
    ensures Loadable(StoreSpec(od, list).1.storage) == Loadable(od.storage)
  {
    SavedState(od.entries, list);
  }

  lemma WriteOnStorage(od: OdState, i: u16, s: u8, v: ObjectValue)
    requires HasStateObject(od.entries) && IsProtected(od.entries[0x1F8C])
    requires (0x1F8C, 0) in Loadable(WriteSpec(od, i, s, v).1.storage)
    ensures Loadable(WriteSpec(od, i, s, v).1.storage) == Loadable(od.storage)
  {
    WriteCases(od, i, s, v);
    var od' := WriteSpec(od, i, s, v).1;
    if od'.storage == od.storage {
    } else if i == 0x1010 {
      StoreOnStorage(od, s);
    } else {
      assert od' == RestoreSpec(od, s).1;
    }
  }

  /** A write to another object, or to a protected one, leaves an entry as it is. */
  lemma WriteElsewhere(od: OdState, i: u16, s: u8, v: ObjectValue, j: u16)
    requires j in od.entries && (i != j || IsProtected(od.entries[j]))
    ensures var after := WriteSpec(od, i, s, v).1.entries;
            j in after && after[j] == od.entries[j]
  {
    WriteCases(od, i, s, v);
    if IsProtected(od.entries[j]) { ProtectedIsKept(od.entries, i, s, v, j); }
  }

  lemma WriteKeepsState(od: OdState, i: u16, s: u8, v: ObjectValue)
    requires StateObjectSound(od)
    ensures var od' := WriteSpec(od, i, s, v).1;
            StateObjectSound(od') && od'.entries[0x1F8C] == od.entries[0x1F8C]
  {
    WriteElsewhere(od, i, s, v, 0x1F8C);
    if (0x1F8C, 0) in Loadable(WriteSpec(od, i, s, v).1.storage) {
      WriteOnStorage(od, i, s, v);
    }
  }

  // ---- What a received PDO does to the state object ----

  /** The byte that one applied entry writes to the state object: the writes of PDOs know no access rights. */
  function OwnByte(e: MappingEntry, payload: seq<u8>): Option<u8> {
    if ByteAligned(e) && InBounds(e, |payload|) && e.index == 0x1F8C && e.sub == 0 && ByteLength(e).value >= 1 then
      Some(payload[ByteOffset(e).value])
    else None
  }

  /** The last such byte of a PDO, up to the first entry that stops the processing. */
  function LastByte(p: Pdo.NodeState, es: seq<MappingEntry>, payload: seq<u8>, source: u8): Option<u8>
    decreases |es|
  {
    if es == [] then None
    else
      var (p', ok) := Pdo.Applied(p, es[0], payload, source);
      var later := if ok then LastByte(p', es[1..], payload, source) else None;
      if later.Some? then later else OwnByte(es[0], payload)
  }

  /** The entry of the state object with a byte written to it, if there is one. */
  function WithByte(e: ObjectEntry, b: Option<u8>): ObjectEntry {
    match b
    case Some(v) => e.(obj := Variable(Unsigned8(v)))
    case None => e
  }

  ghost predicate StateBecomes(od: OdState, od': OdState, b: Option<u8>)
    requires StateObjectSound(od)
  {
    StateObjectSound(od') && od'.entries[0x1F8C] == WithByte(od.entries[0x1F8C], b)
  }

  lemma {:induction false} HandledKeepsState(conn: Server.ServerConn, slice: seq<u8>, od: OdState)
    requires StateObjectSound(od)
    ensures StateBecomes(od, Server.Handled(conn, slice, od).1, None)
  {
    if Server.Executes(conn, slice) {
      OutcomeKeepsState(EmbeddedCodec.Decode(slice).value, od);
    }
  }

  lemma {:induction false} OutcomeKeepsState(req: EmbeddedCodec.PdoCommand, od: OdState)
    requires StateObjectSound(od)
    ensures StateBecomes(od, Server.Outcome(req, od).1, None)
  {
    if req.commandId.WriteByIndex? && Read(od.entries, req.index, req.sub).Some? {
      var template := Read(od.entries, req.index, req.sub).value;
      if Deserialize(req.data, template).Ok? {
        WriteKeepsState(od, req.index, req.sub, Deserialize(req.data, template).value);
      }
    }
  }

  /** An unchecked write to another location leaves the state object alone; one to it puts the value there. */
  lemma {:induction false} UncheckedOnState(od: OdState, i: u16, s: u8, v: ObjectValue)
    requires StateObjectSound(od)
    ensures var od' := od.(entries := Written(od.entries, i, s, v, false));
            StateBecomes(od, od', if i == 0x1F8C && s == 0 && v.Unsigned8? then Some(v.uint8) else None)
  {}

  lemma {:induction false} NotedOnState(p: Pdo.NodeState, index: u16, source: u8)
    requires StateObjectSound(p.od) && (index == Pdo.ERR_SHORT_RX || index == Pdo.ERR_MAP_VERS)
    ensures StateBecomes(p.od, Pdo.Noted(p, index, source).od, None)
  {}

  lemma {:induction false} PlainEntryOnState(p: Pdo.NodeState, e: MappingEntry, payload: seq<u8>, source: u8)
    requires StateObjectSound(p.od) && ByteAligned(e) && InBounds(e, |payload|) && !(0x1200 <= e.index <= 0x12FF)
    ensures StateBecomes(p.od, Pdo.Applied(p, e, payload, source).0.od, OwnByte(e, payload))
  {
    var slice := payload[ByteOffset(e).value..ByteOffset(e).value + ByteLength(e).value];
    if Read(p.od.entries, e.index, e.sub).Some? {
      var template := Read(p.od.entries, e.index, e.sub).value;
      if Deserialize(slice, template).Ok? {
        var v := Deserialize(slice, template).value;
        UncheckedOnState(p.od, e.index, e.sub, v);
        if e.index == 0x1F8C && e.sub == 0 { OneByte(slice, template); }
      } else if e.index == 0x1F8C && e.sub == 0 {
        DeserializeExact(slice, template);
      }
    }
  }

  lemma {:induction false} OneByte(slice: seq<u8>, template: ObjectValue)
    requires template.Unsigned8? && Deserialize(slice, template).Ok?
    ensures slice != [] && Deserialize(slice, template) == Ok(Unsigned8(slice[0]))
  {
    assert slice[..1] == [slice[0]];
    assert FromLe([slice[0]]) == slice[0] by { assert [slice[0]][1..] == []; }
  }

  lemma {:induction false} AppliedOnState(p: Pdo.NodeState, e: MappingEntry, payload: seq<u8>, source: u8)
    requires StateObjectSound(p.od)
    ensures StateBecomes(p.od, Pdo.Applied(p, e, payload, source).0.od, OwnByte(e, payload))
  {
    if ByteAligned(e) && InBounds(e, |payload|) && !(0x1200 <= e.index <= 0x12FF) {
      PlainEntryOnState(p, e, payload, source);
    } else {
      SpecialEntryOnState(p, e, payload, source);
    }
  }

  lemma {:induction false} SpecialEntryOnState(p: Pdo.NodeState, e: MappingEntry, payload: seq<u8>, source: u8)
    requires StateObjectSound(p.od)
    requires ByteAligned(e) && InBounds(e, |payload|) ==> 0x1200 <= e.index <= 0x12FF
    ensures StateBecomes(p.od, Pdo.Applied(p, e, payload, source).0.od, None)
  {
    Pdo.AppliedSpecially(p, e, payload, source);
    if ByteAligned(e) && !InBounds(e, |payload|) {
      NotedOnState(p, Pdo.ERR_SHORT_RX, source);
    } else if ByteAligned(e) && e.index <= 0x127F {
      HandledKeepsState(Server.ConnOf(p.server, e.index), Pdo.SliceOf(e, payload), p.od);
    }
  }

  lemma {:induction false} AppliedAllOnState(p: Pdo.NodeState, es: seq<MappingEntry>, payload: seq<u8>, source: u8)
    requires StateObjectSound(p.od)
    ensures StateBecomes(p.od, Pdo.AppliedAll(p, es, payload, source).od, LastByte(p, es, payload, source))
    decreases |es|
  {
    if es != [] {
      AppliedOnState(p, es[0], payload, source);
      var (p', ok) := Pdo.Applied(p, es[0], payload, source);
      if ok { AppliedAllOnState(p', es[1..], payload, source); }
    }
  }

  /** The byte that an operation writes to the state object past the NMT machine. */
  function ReceivedByte(n: Node, op: NodeOp): Option<u8> {
    match op
    case Receive(source, payload, version, ready) =>
      if !ready then None
      else
        (match Pdo.FirstChannel(n.od.entries, 0, source)
         case None => None
         case Some(i) =>
           if Pdo.VersionOk(GetOr(ReadU8(n.od.entries, 0x1400 + i, 2), 0), version) then
             LastByte(PdoState(n), Pdo.ChannelEntries(n.od.entries, i), payload, source)
           else None)
    case _ => None
  }

  lemma {:induction false} ReceiveOnState(n: Node, op: NodeOp)
    requires StateObjectSound(n.od) && op.Receive?
    ensures StateBecomes(n.od, Do(n, op).od, ReceivedByte(n, op))
  {
    var p := PdoState(n);
    var channel := Pdo.FirstChannel(n.od.entries, 0, op.source);
    if op.ready && channel.Some? {
      if Pdo.VersionOk(GetOr(ReadU8(n.od.entries, 0x1400 + channel.value, 2), 0), op.version) {
        AppliedAllOnState(p, Pdo.ChannelEntries(n.od.entries, channel.value), op.payload, op.source);
      } else {
        NotedOnState(p.(reports := p.reports + [Pdo.PdoMapVersion(op.source)]), Pdo.ERR_MAP_VERS, op.source);
      }
    }
  }

  /** An entry that maps 0x1F8C puts any byte there, be it a state or not. */
  lemma {:induction false} MappedByteOverwrites(p: Pdo.NodeState, b: u8, source: u8)
    requires HasStateObject(p.od.entries)
    ensures ReadU8(Pdo.Applied(p, MappingEntry(0x1F8C, 0, 0, 8), [b], source).0.od.entries, 0x1F8C, 0) == Some(b)
    ensures forall s: NmtState :: Code(s) != 0xAB
  {
    assert [b][0..1] == [b];
    OneByteOf(b, p.od.entries[0x1F8C].obj.value);
  }

  lemma {:induction false} OneByteOf(b: u8, template: ObjectValue)
    requires template.Unsigned8?
    ensures Deserialize([b], template) == Ok(Unsigned8(b))
  {
    DeserializeExact([b], template);
    OneByte([b], template);
  }

  // ---- Runs ----

  /** The operation is a reset or changes the state. */
  predicate Enters(n: Node, op: NodeOp) {
    op.Nmt? && (IsReset(op.event) || Do(n, op).state != n.state)
  }

  /** Some event of the run was a reset or changed the state. */
  predicate StateWasEntered(n: Node, ops: seq<NodeOp>) {
    ops != [] && (StateWasEntered(n, ops[..|ops| - 1]) || Enters(Run(n, ops[..|ops| - 1]), ops[|ops| - 1]))
  }

  /** The last byte received for 0x1F8C since the state was last entered. */
  function Overwritten(n: Node, ops: seq<NodeOp>): Option<u8> {
    if ops == [] then None
    else
      var before, op := Run(n, ops[..|ops| - 1]), ops[|ops| - 1];
      if Enters(before, op) then None
      else if ReceivedByte(before, op).Some? then ReceivedByte(before, op)
      else Overwritten(n, ops[..|ops| - 1])
  }

  /** 0x1F8C reads as that byte, or as the state if there is none. */
  predicate Shows(n: Node, b: Option<u8>) { ReadU8(n.od.entries, 0x1F8C, 0) == Some(GetOr(b, Code(n.state))) }

  lemma {:induction false} OpOnState(n: Node, op: NodeOp, b: Option<u8>)
    requires StateObjectSound(n.od)
    ensures StateObjectSound(Do(n, op).od)
    ensures Enters(n, op) ==> Shows(Do(n, op), None)
    ensures !Enters(n, op) && Shows(n, b) ==>
              Shows(Do(n, op), if ReceivedByte(n, op).Some? then ReceivedByte(n, op) else b)
  {
    match op {
      case Nmt(e) => NmtKeepsState(n, e);
      case Write(i, s, v) => WriteKeepsState(n.od, i, s, v);
      case Log(r) =>
      case Receive(_, _, _, _) => ReceiveOnState(n, op);
    }
  }

  lemma {:induction false} RunShows(n: Node, ops: seq<NodeOp>)
    requires StateObjectSound(n.od)
    ensures StateObjectSound(Run(n, ops).od)
    ensures Mirrors(n) || StateWasEntered(n, ops) ==> Shows(Run(n, ops), Overwritten(n, ops))
  {
    if ops != [] {
      RunShows(n, ops[..|ops| - 1]);
      OpOnState(Run(n, ops[..|ops| - 1]), ops[|ops| - 1], Overwritten(n, ops[..|ops| - 1]));
    }
  }

  /** No received byte, or the code of the state itself, stands in 0x1F8C. */
  predicate Undisturbed(n: Node, ops: seq<NodeOp>) {
    Overwritten(n, ops).None? || Overwritten(n, ops).value == Code(Run(n, ops).state)
  }

  /**
   * From the first state that is entered, under NMT events, public writes to any location,
   * storage commands, logged errors and received PDOs, 0x1F8C reads as the current NMT state if and only
   * if no PDO has put another byte there since the state was last entered.
   */
  lemma {:induction false} StateIsMirrored(n: Node, ops: seq<NodeOp>)
    requires StateObjectSound(n.od)
    ensures StateObjectSound(Run(n, ops).od)
    ensures Mirrors(n) || StateWasEntered(n, ops) ==> (Mirrors(Run(n, ops)) <==> Undisturbed(n, ops))
  {
    RunShows(n, ops);
  }

  /** The state object is populated when the firmware does not bring it. */
  lemma {:induction false} PopulatedStateObject(firmware: Dictionary)
    requires 0x1F8C !in firmware
    ensures 0x1F8C in Populated(firmware)
    ensures Populated(firmware)[0x1F8C] == ObjectEntry(Variable(Unsigned8(0)), Some(ReadOnly), Some(Unsigned8(0)))
  {
    StateObject(firmware);
  }

  lemma {:induction false} OverlaidStateObject(d: Dictionary, m: Parameters)
    requires HasStateObject(d)
    ensures var d' := Overlay(d, m);
            HasStateObject(d') && d'[0x1F8C].access == d[0x1F8C].access
                && d'[0x1F8C].defaultValue == d[0x1F8C].defaultValue
  {}

  /** What a boot leaves of the state object: the populated one, with a value of its type. */
  lemma {:induction false} BootedStateObject(firmware: Dictionary, storage: Option<Storage>)
    requires 0x1F8C !in firmware
    ensures var d := InitSpec(OdState(firmware, storage)).1.entries;
            HasStateObject(d) && IsProtected(d[0x1F8C]) && d[0x1F8C].defaultValue == Some(Unsigned8(0))
  {
    PopulatedStateObject(firmware);
    if storage.Some? { OverlaidStateObject(Populated(firmware), storage.value.saved); }
  }

  /** A stored value for the state object, if there is one, has its type. */
  predicate StoredStateFits(storage: Option<Storage>) {
    (0x1F8C, 0) in Loadable(storage) ==> Loadable(storage)[(0x1F8C, 0)].Unsigned8?
  }

  /** A firmware that does not bring its own 0x1F8C boots into a sound node exactly when the stored value fits. */
  lemma {:induction false} BootedNodeIsSound(firmware: Dictionary, storage: Option<Storage>)
    requires 0x1F8C !in firmware
    ensures var booted := InitSpec(OdState(firmware, storage)).1;
            StateObjectSound(booted) <==> StoredStateFits(booted.storage)
  {
    BootedStateObject(firmware, storage);
  }

  lemma {:induction false} ResetEnters(n: Node, ops: seq<NodeOp>)
    ensures StateWasEntered(n, [Nmt(SwReset)] + ops)
  {
    var all := [Nmt(SwReset)] + ops;
    if ops == [] {
      assert all[|all| - 1] == Nmt(SwReset);
    } else {
      assert all[..|all| - 1] == [Nmt(SwReset)] + ops[..|ops| - 1];
      ResetEnters(n, ops[..|ops| - 1]);
    }
  }

  /** A stored value of another type is loaded by the reset all the same, and then there is no state to read. */
  lemma {:induction false} MisfitIsLoaded(n: Node)
    requires HasStateObject(n.od.entries) && !StoredStateFits(n.od.storage)
    ensures !Mirrors(Run(n, [Nmt(SwReset)]))
  {
    var stored := Loadable(n.od.storage);
    assert [Nmt(SwReset)][..0] == [];
    ResetPointwise(n.od.entries, SwReset, stored, 0x1F8C);
    assert PowerOnObject(0x1F8C, n.od.entries[0x1F8C], stored) == Variable(stored[(0x1F8C, 0)]);
  }

  /** In every run that begins with the software reset, only a received byte keeps 0x1F8C from mirroring the state. */
  ghost predicate AlwaysMirrors(n: Node) {
    forall ops: seq<NodeOp> ::
      Mirrors(Run(n, [Nmt(SwReset)] + ops)) <==> Undisturbed(n, [Nmt(SwReset)] + ops)
  }

  /**
   * From power-on: a firmware without its own 0x1F8C boots, the machine makes its software reset,
   * and then 0x1F8C mirrors the state in every run for as long as no PDO puts another byte there, if and only
   * if the boot leaves no stored value of another type for it.
   */
  lemma {:induction false} BootMirrors(firmware: Dictionary, role: Role, storage: Option<Storage>, channels: Channels)
    requires 0x1F8C !in firmware
    ensures var booted := InitSpec(OdState(firmware, storage)).1;
            AlwaysMirrors(Node(role, GsInitialising, booted, channels)) <==> StoredStateFits(booted.storage)
  {
    var n := Node(role, GsInitialising, InitSpec(OdState(firmware, storage)).1, channels);
    BootedStateObject(firmware, storage);
    BootedNodeIsSound(firmware, storage);
    if StoredStateFits(n.od.storage) {
      forall ops: seq<NodeOp>
        ensures Mirrors(Run(n, [Nmt(SwReset)] + ops)) <==> Undisturbed(n, [Nmt(SwReset)] + ops)
      {
        ResetEnters(n, ops);
        StateIsMirrored(n, [Nmt(SwReset)] + ops);
      }
    } else {
      MisfitIsLoaded(n);
      assert [Nmt(SwReset)] + [] == [Nmt(SwReset)];
      assert [Nmt(SwReset)][..0] == [];
      assert Undisturbed(n, [Nmt(SwReset)] + []);
    }
  }

  // ---- The error history ----

  /** The records of the run as stored, newest first. */
  function NewestFirst(ops: seq<NodeOp>): seq<ObjectValue> {
    if ops == [] then []
    else
      var op := ops[|ops| - 1];
      (if op.Log? then [Domain(op.record)] else []) + NewestFirst(ops[..|ops| - 1])
  }

  function Max(a: nat, b: nat): nat { if a < b then b else a }

  function Keep(s: seq<ObjectValue>, n: nat): seq<ObjectValue> {
    if |s| <= n then s else s[..n]
  }

  predicate HasHistory(d: Dictionary) { 0x1003 in d && d[0x1003].obj.Array? }

  function History(d: Dictionary): seq<ObjectValue>
    requires HasHistory(d)
  {
    d[0x1003].obj.values
  }

  lemma KeepOneMore(r: ObjectValue, s: seq<ObjectValue>, n: nat)
    requires n > 0
    ensures Keep([r] + Keep(s, n), n) == Keep([r] + s, n)
  {}

  lemma LoggedKeeps(values: seq<ObjectValue>, record: seq<u8>, cap: nat)
    requires |values| <= cap && (cap == MAX_HISTORY_ENTRIES || (cap > MAX_HISTORY_ENTRIES && |values| == cap))
    ensures LoggedList(values, record) == Keep([Domain(record)] + values, cap)
  {}

  /** An applied entry writes to an object: by its own mapping, or by a request to the embedded server. */
  predicate EntryWrites(p: Pdo.NodeState, e: MappingEntry, payload: seq<u8>, index: u16) {
    && ByteAligned(e) && InBounds(e, |payload|)
    && if 0x1200 <= e.index <= 0x127F then
         var slice := Pdo.SliceOf(e, payload);
         && Server.Executes(Server.ConnOf(p.server, e.index), slice)
         && EmbeddedCodec.Decode(slice).value.commandId.WriteByIndex?
         && EmbeddedCodec.Decode(slice).value.index == index
       else !(0x1280 <= e.index <= 0x12FF) && e.index == index
  }

  /** Some entry does, up to the first that stops the processing. */
  predicate SomeEntryWrites(p: Pdo.NodeState, es: seq<MappingEntry>, payload: seq<u8>, source: u8, index: u16)
    decreases |es|
  {
    es != []
    && (EntryWrites(p, es[0], payload, index)
        || (var (p', ok) := Pdo.Applied(p, es[0], payload, source);
            ok && SomeEntryWrites(p', es[1..], payload, source, index)))
  }

  /** An operation that writes to the error history other than by logging. */
  predicate WritesHistory(n: Node, op: NodeOp) {
    match op
    case Write(i, _, _) => i == 0x1003
    case Receive(source, payload, version, ready) =>
      && ready
      && var channel := Pdo.FirstChannel(n.od.entries, 0, source);
         && channel.Some?
         && Pdo.VersionOk(GetOr(ReadU8(n.od.entries, 0x1400 + channel.value, 2), 0), version)
         && SomeEntryWrites(PdoState(n), Pdo.ChannelEntries(n.od.entries, channel.value), payload, source, 0x1003)
    case _ => false
  }

  ghost predicate SameHistory(d: Dictionary, d': Dictionary) {
    0x1003 in d && 0x1003 in d' && d'[0x1003] == d[0x1003]
  }

  lemma {:induction false} OutcomeOnHistory(req: EmbeddedCodec.PdoCommand, od: OdState)
    requires 0x1003 in od.entries && (req.commandId.WriteByIndex? ==> req.index != 0x1003)
    ensures SameHistory(od.entries, Server.Outcome(req, od).1.entries)
  {
    if req.commandId.WriteByIndex? && Read(od.entries, req.index, req.sub).Some? {
      var template := Read(od.entries, req.index, req.sub).value;
      if Deserialize(req.data, template).Ok? {
        WriteElsewhere(od, req.index, req.sub, Deserialize(req.data, template).value, 0x1003);
      }
    }
  }

  lemma {:induction false} HandledOnHistory(conn: Server.ServerConn, slice: seq<u8>, od: OdState)
    requires 0x1003 in od.entries
    requires Server.Executes(conn, slice) ==>
               var req := EmbeddedCodec.Decode(slice).value; req.commandId.WriteByIndex? ==> req.index != 0x1003
    ensures SameHistory(od.entries, Server.Handled(conn, slice, od).1.entries)
  {
    if Server.Executes(conn, slice) { OutcomeOnHistory(EmbeddedCodec.Decode(slice).value, od); }
  }

  lemma {:induction false} PlainEntryOnHistory(p: Pdo.NodeState, e: MappingEntry, payload: seq<u8>, source: u8)
    requires 0x1003 in p.od.entries && e.index != 0x1003
    requires ByteAligned(e) && InBounds(e, |payload|) && !(0x1200 <= e.index <= 0x12FF)
    ensures SameHistory(p.od.entries, Pdo.Applied(p, e, payload, source).0.od.entries)
  {}

  lemma {:induction false} AppliedOnHistory(p: Pdo.NodeState, e: MappingEntry, payload: seq<u8>, source: u8)
    requires 0x1003 in p.od.entries && !EntryWrites(p, e, payload, 0x1003)
    ensures SameHistory(p.od.entries, Pdo.Applied(p, e, payload, source).0.od.entries)
  {
    if ByteAligned(e) && InBounds(e, |payload|) && !(0x1200 <= e.index <= 0x12FF) {
      PlainEntryOnHistory(p, e, payload, source);
    } else {
      Pdo.AppliedSpecially(p, e, payload, source);
      if ByteAligned(e) && InBounds(e, |payload|) && e.index <= 0x127F {
        HandledOnHistory(Server.ConnOf(p.server, e.index), Pdo.SliceOf(e, payload), p.od);
      }
    }
  }

  lemma {:induction false} AppliedAllOnHistory(p: Pdo.NodeState, es: seq<MappingEntry>, payload: seq<u8>, source: u8)
    requires 0x1003 in p.od.entries && !SomeEntryWrites(p, es, payload, source, 0x1003)
    ensures SameHistory(p.od.entries, Pdo.AppliedAll(p, es, payload, source).od.entries)
    decreases |es|
  {
    if es != [] {
      AppliedOnHistory(p, es[0], payload, source);
      var (p', ok) := Pdo.Applied(p, es[0], payload, source);
      if ok { AppliedAllOnHistory(p', es[1..], payload, source); }
    }
  }

  lemma {:induction false} ReceiveOnHistory(n: Node, op: NodeOp)
    requires op.Receive? && 0x1003 in n.od.entries && !WritesHistory(n, op)
    ensures SameHistory(n.od.entries, Do(n, op).od.entries)
  {
    var channel := Pdo.FirstChannel(n.od.entries, 0, op.source);
    if op.ready && channel.Some?
       && Pdo.VersionOk(GetOr(ReadU8(n.od.entries, 0x1400 + channel.value, 2), 0), op.version) {
      AppliedAllOnHistory(PdoState(n), Pdo.ChannelEntries(n.od.entries, channel.value), op.payload, op.source);
    }
  }

  lemma {:induction false} OpOnHistory(n: Node, op: NodeOp)
    requires HasHistory(n.od.entries) && !WritesHistory(n, op)
    ensures HasHistory(Do(n, op).od.entries)
    ensures History(Do(n, op).od.entries) ==
            if op.Log? then LoggedList(History(n.od.entries), op.record) else History(n.od.entries)
  {
    match op {
      case Nmt(e) => if IsReset(e) { ResetPointwise(n.od.entries, e, Loadable(n.od.storage), 0x1003); }
      case Write(i, s, v) => WriteElsewhere(n.od, i, s, v, 0x1003);
      case Log(r) =>
      case Receive(_, _, _, _) => ReceiveOnHistory(n, op);
    }
  }

  /** Without an array at 0x1003 an error is not logged anywhere. */
  lemma {:induction false} NothingToLogTo(n: Node, record: seq<u8>)
    requires 0x1003 !in n.od.entries || !n.od.entries[0x1003].obj.Array?
    ensures Do(n, Log(record)) == n
  {}

  /** A PDO that maps a record of the history replaces it. */
  lemma {:induction false} MappedRecordOverwrites(p: Pdo.NodeState, payload: seq<u8>, bits: u16, source: u8)
    requires HasHistory(p.od.entries) && History(p.od.entries) != [] && History(p.od.entries)[0].Domain?
    requires bits == 8 * |payload|
    ensures Read(Pdo.Applied(p, MappingEntry(0x1003, 1, 0, bits), payload, source).0.od.entries, 0x1003, 1)
         == Some(Domain(payload))
  {
    assert payload[0..|payload|] == payload;
    WriteExact(p.od.entries, 0x1003, 1, Domain(payload), false);
  }

  /** How one operation changes a history that already has the stated form. */
  lemma HistoryStep(n: Node, op: NodeOp, newer: seq<ObjectValue>, h: seq<ObjectValue>)
    requires HasHistory(n.od.entries) && !WritesHistory(n, op)
    requires History(n.od.entries) == Keep(newer + h, Max(MAX_HISTORY_ENTRIES, |h|))
    ensures HasHistory(Do(n, op).od.entries)
    ensures History(Do(n, op).od.entries)
         == Keep((if op.Log? then [Domain(op.record)] else []) + newer + h, Max(MAX_HISTORY_ENTRIES, |h|))
  {
    OpOnHistory(n, op);
    var cap := Max(MAX_HISTORY_ENTRIES, |h|);
    if op.Log? {
      LoggedKeeps(Keep(newer + h, cap), op.record, cap);
      KeepOneMore(Domain(op.record), newer + h, cap);
      assert [Domain(op.record)] + (newer + h) == [Domain(op.record)] + newer + h;
    } else {
      assert [] + newer + h == newer + h;
    }
  }

  /** No operation of the run writes to the history other than by logging. */
  predicate HistoryUntouched(n: Node, ops: seq<NodeOp>) {
    ops == []
    || (HistoryUntouched(n, ops[..|ops| - 1]) && !WritesHistory(Run(n, ops[..|ops| - 1]), ops[|ops| - 1]))
  }

  /**
   * The history holds the newest 254 records, newest first, across all resets, and all writes and
   * received PDOs that go to other objects; a history that is longer from the start keeps its length.
   */
  lemma {:induction false} HistoryIsNewestFirst(n: Node, ops: seq<NodeOp>)
    requires HasHistory(n.od.entries) && HistoryUntouched(n, ops)
    ensures HasHistory(Run(n, ops).od.entries)
    ensures History(Run(n, ops).od.entries)
         == Keep(NewestFirst(ops) + History(n.od.entries), Max(MAX_HISTORY_ENTRIES, |History(n.od.entries)|))
  {
    var h := History(n.od.entries);
    if ops == [] {
      assert [] + h == h;
    } else {
      var m := |ops| - 1;
      HistoryIsNewestFirst(n, ops[..m]);
      HistoryStep(Run(n, ops[..m]), ops[m], NewestFirst(ops[..m]), h);
    }
  }
}
