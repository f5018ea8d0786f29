/**
 * Unpacking of received process data into the dictionary
 * (crates/powerlink-rs/src/node/pdo_handler.rs; EPSG DS 301, section 6.4).
 */
module PdoHandlers {
  import opened Wrappers
  import opened Bytes
  import opened ObjectValues
  import opened Entries
  import opened ObjectDictionaries
  import opened PdoMapping
  import opened EmbeddedCodec
  import Server = EmbeddedServers
  import Client = EmbeddedClients

  const MN_NODE_ID: u8 := 240
  const ERR_MAP_VERS: u16 := 0x1C80
  const ERR_SHORT_RX: u16 := 0x1C81

  /** What the handler reports to the DLL error manager. */
  datatype Report = PdoMapVersion(node: u8) | PdoPayloadShort(node: u8)

  datatype NodeState = NodeState(
    od: OdState,
    server: map<u16, Server.ServerConn>,
    client: map<u16, Client.ClientConn>,
    reports: seq<Report>,
    halted: bool)

  // ---- Specification functions ----

  lemma Pow2InByte(k: nat)
    requires k < 8
    ensures Pow2(k) < 0x100
  {
    assert Pow2(3) == 2 * Pow2(2) == 4 * Pow2(1) == 8;
    assert Pow2(7) == 2 * Pow2(6) == 4 * Pow2(5) == 8 * Pow2(4) == 16 * Pow2(3);
  }

  /** A byte with one more bit set. */
  function WithBit(b: u8, k: nat): (r: u8)
    requires k < 8
  {
    Pow2InByte(k);
    assert Pow2(8) == 0x100 by {
      assert Pow2(4) == 2 * Pow2(3) == 4 * Pow2(2) == 8 * Pow2(1) == 16;
      assert Pow2(8) == 2 * Pow2(7) == 4 * Pow2(6) == 8 * Pow2(5) == 16 * Pow2(4);
    }
    BitOrBound(b, Pow2(k), 8);
    BitOr(b, Pow2(k))
  }

  /** The dictionary after noting a node in one of the 32-byte node lists 0x1C80 and 0x1C81. */
  function ErrorNoted(d: Dictionary, index: u16, node: u8): Dictionary {
    if node == 0 || node >= MN_NODE_ID then d
    else
      match Read(d, index, 0)
      case Some(OctetString(bytes)) =>
        var at := (node - 1) / 8;
        if at < |bytes| then
          Written(d, index, 0, OctetString(bytes[at := WithBit(bytes[at], (node - 1) % 8)]), false)
        else d
      case _ => d
  }

  function Short(n: NodeState, node: u8): NodeState { n.(reports := n.reports + [PdoPayloadShort(node)]) }

  function Noted(n: NodeState, index: u16, node: u8): NodeState {
    n.(od := n.od.(entries := ErrorNoted(n.od.entries, index, node)))
  }

  /** One mapping entry applied to a payload; false stops the processing of the PDO. */
  function Applied(n: NodeState, e: MappingEntry, payload: seq<u8>, node: u8): (NodeState, bool) {
    if !ByteAligned(e) then (n, true)
    else
      var offset, length := ByteOffset(e).value, ByteLength(e).value;
      if |payload| < offset + length then (Noted(Short(n, node), ERR_SHORT_RX, node), false)
      else
        var slice := payload[offset..offset + length];
        if 0x1200 <= e.index <= 0x127F then
          var (conn, od') := Server.Handled(Server.ConnOf(n.server, e.index), slice, n.od);
          (n.(server := n.server[e.index := conn], od := od'), true)
        else if 0x1280 <= e.index <= 0x12FF then
          if e.index !in n.client then (n, true)
          else
            var stops := Client.Stops(n.client[e.index], slice);
            (n.(client := n.client[e.index := Client.AfterResponse(n.client[e.index], slice)],
                halted := n.halted || stops), !stops)
        else
          match Read(n.od.entries, e.index, e.sub)
          case None => (n, true)
          case Some(template) =>
            match Deserialize(slice, template)
            case Err(_) => (Short(n, node), false)
            case Ok(v) => (n.(od := n.od.(entries := Written(n.od.entries, e.index, e.sub, v, false))), true)
  }

  /** The bytes that an entry names. */
  function SliceOf(e: MappingEntry, payload: seq<u8>): seq<u8>
    requires ByteAligned(e) && InBounds(e, |payload|)
  {
    payload[ByteOffset(e).value..ByteOffset(e).value + ByteLength(e).value]
  }

  /** What an entry that carries no plain value makes of the dictionary. */
  lemma {:induction false} AppliedSpecially(n: NodeState, e: MappingEntry, payload: seq<u8>, node: u8)
    requires ByteAligned(e) && InBounds(e, |payload|) ==> 0x1200 <= e.index <= 0x12FF
    ensures Applied(n, e, payload, node).0.od ==
            if ByteAligned(e) && !InBounds(e, |payload|) then Noted(n, ERR_SHORT_RX, node).od
            else if ByteAligned(e) && e.index <= 0x127F then
              Server.Handled(Server.ConnOf(n.server, e.index), SliceOf(e, payload), n.od).1
            else n.od
  {}

  /** All entries in order, up to the first that stops. */
  function AppliedAll(n: NodeState, es: seq<MappingEntry>, payload: seq<u8>, node: u8): NodeState
    decreases |es|
  {
    if es == [] then n
    else
      var (n', ok) := Applied(n, es[0], payload, node);
      if ok then AppliedAll(n', es[1..], payload, node) else n'
  }

  /** The communication parameters of channel i are set up for a source node; the MN is shown as 0. */
  predicate ChannelMatches(d: Dictionary, i: nat, node: u8)
    requires i < 0x100
  {
    match ReadU8(d, 0x1400 + i, 1)
    case Some(id) => (node == MN_NODE_ID && id == 0) || (node != 0 && id == node)
    case None => false
  }

  predicate VersionOk(expected: u8, received: u8) {
    || (expected == 0 && received == 0)
    || (expected > 0 && expected / 0x10 == received / 0x10 && received % 0x10 >= expected % 0x10)
  }

  /** The first matching channel from i on. */
  function FirstChannel(d: Dictionary, i: nat, node: u8): (r: Option<nat>)
    requires i <= 0x100
    ensures r.Some? ==> i <= r.value < 0x100
    decreases 0x100 - i
  {
    if i == 0x100 then None else if ChannelMatches(d, i, node) then Some(i) else FirstChannel(d, i + 1, node)
  }

  lemma {:induction false} FirstChannelExact(d: Dictionary, i: nat, node: u8)
    requires i <= 0x100
    ensures match FirstChannel(d, i, node)
            case None => forall j :: i <= j < 0x100 ==> !ChannelMatches(d, j, node)
            case Some(k) =>
              && i <= k < 0x100 && ChannelMatches(d, k, node)
              && forall j :: i <= j < k ==> !ChannelMatches(d, j, node)
    decreases 0x100 - i
  {
    if i < 0x100 { FirstChannelExact(d, i + 1, node); }
  }

  /** The mapping entries that channel i applies. */
  function ChannelEntries(d: Dictionary, i: nat): seq<MappingEntry>
    requires i < 0x100
  {
    MappedEntries(d, 0x1600 + i, MappingCount(d, 0x1600 + i))
  }

  function Consumption(n: NodeState, node: u8, payload: seq<u8>, version: u8, ready: bool): NodeState {
    if !ready then n
    else
      match FirstChannel(n.od.entries, 0, node)
      case None => n
      case Some(i) =>
        if !VersionOk(GetOr(ReadU8(n.od.entries, 0x1400 + i, 2), 0), version) then
          Noted(n.(reports := n.reports + [PdoMapVersion(node)]), ERR_MAP_VERS, node)
        else
          AppliedAll(n, ChannelEntries(n.od.entries, i), payload, node)
  }

  // ---- The class ----

  class PdoNode {
    const od: ObjectDictionary
    const server: Server.EmbeddedSdoServer
    const client: Client.EmbeddedSdoClient
    var reports: seq<Report>
    /** The program has stopped; nothing is called after that. */
    var halted: bool

    ghost function State(): NodeState
      reads this, od, server, client
    {
      NodeState(od.State(), server.connections, client.connections, reports, halted)
    }

    constructor (od: ObjectDictionary, server: Server.EmbeddedSdoServer, client: Client.EmbeddedSdoClient)
      ensures this.od == od && this.server == server && this.client == client
      ensures reports == [] && !halted
    {
      this.od := od;
      this.server := server;
      this.client := client;
      reports := [];
      halted := false;
    }

    method UpdatePdoErrorObject(index: u16, node: u8)
      modifies od
      ensures State() == Noted(old(State()), index, node)
    {
      if node == 0 || node >= MN_NODE_ID {
        return;
      }
      var at := (node - 1) / 8;
      var bit := (node - 1) % 8;
      var value := Read(od.entries, index, 0);
      if value.Some? && value.value.OctetString? {
        var bytes := value.value.octets;
        if at < |bytes| {
          bytes := bytes[at := WithBit(bytes[at], bit)];
          var r := od.WriteInternal(index, 0, OctetString(bytes), false);
        }
      }
    }

    method ApplyRpdoMappingEntry(e: MappingEntry, payload: seq<u8>, node: u8) returns (ok: bool)
      modifies this, od, server, client
      ensures (State(), ok) == Applied(old(State()), e, payload, node)
    {
      if ByteOffset(e).None? || ByteLength(e).None? {
        return true;
      }
      var offset, length := ByteOffset(e).value, ByteLength(e).value;
      if |payload| < offset + length {
        reports := reports + [PdoPayloadShort(node)];
        UpdatePdoErrorObject(ERR_SHORT_RX, node);
        return false;
      }
      var slice := payload[offset..offset + length];
      if 0x1200 <= e.index <= 0x127F {
        server.HandleRequest(e.index, slice, od);
        return true;
      }
      if 0x1280 <= e.index <= 0x12FF {
        var stopped := client.HandleResponse(e.index, slice);
        halted := halted || stopped;
        return !stopped;
      }
      var template := Read(od.entries, e.index, e.sub);
      if template.None? {
        return true;
      }
      var value := Deserialize(slice, template.value);
      if value.Err? {
        reports := reports + [PdoPayloadShort(node)];
        return false;
      }
      // The source compares the types once more here; by DeserializeExact they always agree.
      var r := od.WriteInternal(e.index, e.sub, value.value, false);
      return true;
    }

    method ConsumePdoPayload(node: u8, payload: seq<u8>, version: u8, ready: bool)
      modifies this, od, server, client
      ensures State() == Consumption(old(State()), node, payload, version, ready)
    {
      if !ready {
        return;
      }
      var channel := FindChannel(node);
      if channel.None? {
        return;
      }
      var expected := GetOr(ReadU8(od.entries, 0x1400 + channel.value, 2), 0);
      if !VersionOk(expected, version) {
        reports := reports + [PdoMapVersion(node)];
        UpdatePdoErrorObject(ERR_MAP_VERS, node);
        return;
      }
      var entries := CollectEntries(0x1600 + channel.value);
      ApplyEntries(entries, payload, node);
    }

    method FindChannel(node: u8) returns (channel: Option<nat>)
      ensures channel == FirstChannel(od.entries, 0, node)
    {
      var i := 0;
      while i < 0x100
        invariant i <= 0x100
        invariant FirstChannel(od.entries, 0, node) == FirstChannel(od.entries, i, node)
      {
        if ChannelMatches(od.entries, i, node) {
          return Some(i);
        }
        i := i + 1;
      }
      return None;
    }

    /** The mapping entries are read before any of them is applied. */
    method CollectEntries(index: u16) returns (entries: seq<MappingEntry>)
      ensures entries == MappedEntries(od.entries, index, MappingCount(od.entries, index))
    {
      entries := [];
      var count := ReadU8(od.entries, index, 0);
      if count.None? {
        return;
      }
      var k := 0;
      while k < count.value
        invariant k <= count.value
        invariant entries == MappedEntries(od.entries, index, k)
      {
        k := k + 1;
        var value := Read(od.entries, index, k);
        if value.Some? && value.value.Unsigned64? {
          entries := entries + [FromU64(value.value.uint64)];
        }
      }
    }

    method ApplyEntries(entries: seq<MappingEntry>, payload: seq<u8>, node: u8)
      modifies this, od, server, client
      ensures State() == AppliedAll(old(State()), entries, payload, node)
    {
      var k := 0;
      while k < |entries|
        invariant k <= |entries|
        invariant AppliedAll(old(State()), entries, payload, node) == AppliedAll(State(), entries[k..], payload, node)
      {
        var ok := ApplyRpdoMappingEntry(entries[k], payload, node);
        if !ok {
          return;
        }
        assert entries[k..][1..] == entries[k + 1..];
        k := k + 1;
      }
    }
  }

  // ---- Unpacking inverts placing ----

  predicate SameLocation(a: MappingEntry, b: MappingEntry) { a.index == b.index && a.sub == b.sub }

  /**
   * The payload holds the serialised value in the bytes that an entry names by its bits, and the
   * entry names a location of its type.
   */
  predicate HoldsValue(d: Dictionary, e: MappingEntry, v: ObjectValue, payload: seq<u8>) {
    && e.offsetBits % 8 == 0 && e.lengthBits % 8 == 0 && !(0x1200 <= e.index <= 0x12FF)
    && HasLocation(d, e.index, e.sub) && SameType(Value(d, e.index, e.sub), v)
    && var begin, end := e.offsetBits / 8, (e.offsetBits + e.lengthBits) / 8;
       && end <= |payload|
       && Serialize(v) <= payload[begin..end]
       && (FixedSize(v) == None ==> Serialize(v) == payload[begin..end])
  }

  /** Distinct locations, each with its value in the payload. */
  ghost predicate Placed(d: Dictionary, es: seq<MappingEntry>, vs: seq<ObjectValue>, payload: seq<u8>) {
    && |es| == |vs|
    && (forall k :: 0 <= k < |es| ==> HoldsValue(d, es[k], vs[k], payload))
    && (forall j, k :: 0 <= j < k < |es| ==> !SameLocation(es[j], es[k]))
  }

  predicate NoneNames(es: seq<MappingEntry>, i: u16, s: u8) {
    forall k :: 0 <= k < |es| ==> !(es[k].index == i && es[k].sub == s)
  }

  /** d' has the value of each entry at its location and is d everywhere else. */
  ghost predicate Unpacked(d: Dictionary, es: seq<MappingEntry>, vs: seq<ObjectValue>, d': Dictionary)
    requires |es| == |vs|
  {
    && SameShape(d, d')
    && (forall k :: 0 <= k < |es| ==> Read(d', es[k].index, es[k].sub) == Some(vs[k]))
    && (forall i: u16, s: u8 :: HasLocation(d, i, s) && NoneNames(es, i, s) ==>
          HasLocation(d', i, s) && Value(d', i, s) == Value(d, i, s))
  }

  lemma BytesOfBits(e: MappingEntry)
    requires e.offsetBits % 8 == 0 && e.lengthBits % 8 == 0
    ensures ByteAligned(e) && ByteOffset(e).value == e.offsetBits / 8
    ensures ByteOffset(e).value + ByteLength(e).value == (e.offsetBits + e.lengthBits) / 8
  {}

  lemma {:induction false} PlacedDecodes(d: Dictionary, e: MappingEntry, v: ObjectValue, payload: seq<u8>)
    requires HoldsValue(d, e, v, payload)
    ensures ByteAligned(e) && InBounds(e, |payload|)
    ensures Deserialize(SliceOf(e, payload), Value(d, e.index, e.sub)) == Ok(v)
  {
    BytesOfBits(e);
    var slice, template := SliceOf(e, payload), Value(d, e.index, e.sub);
    var tail := slice[|Serialize(v)|..];
    assert slice == Serialize(v) + tail;
    SameTypeEquivalence(template, v, v);
    RoundTrip(v, template, tail);
  }

  lemma OneEntry(n: NodeState, e: MappingEntry, v: ObjectValue, payload: seq<u8>, node: u8)
    requires HoldsValue(n.od.entries, e, v, payload)
    ensures var (n', ok) := Applied(n, e, payload, node);
            && ok && n' == n.(od := n.od.(entries := n'.od.entries))
            && OnlyChanges(n.od.entries, n'.od.entries, e.index, e.sub, v)
  {
    PlacedDecodes(n.od.entries, e, v, payload);
    WriteExact(n.od.entries, e.index, e.sub, v, false);
    assert Applied(n, e, payload, node)
           == (n.(od := n.od.(entries := Written(n.od.entries, e.index, e.sub, v, false))), true);
  }

  /** Placed values stay placed when another location changes. */
  lemma StillPlaced(d: Dictionary, d': Dictionary, e: MappingEntry, v: ObjectValue, es: seq<MappingEntry>,
                    vs: seq<ObjectValue>, payload: seq<u8>)
    requires OnlyChanges(d, d', e.index, e.sub, v) && Placed(d, es, vs, payload)
    requires forall k :: 0 <= k < |es| ==> !SameLocation(e, es[k])
    ensures Placed(d', es, vs, payload)
  {
    forall k | 0 <= k < |es| ensures HoldsValue(d', es[k], vs[k], payload) {
      assert HoldsValue(d, es[k], vs[k], payload);
    }
  }

  /** What was written first is still there after the others, which go elsewhere. */
  lemma {:induction false} FirstStaysUnpacked(d: Dictionary, d1: Dictionary, d2: Dictionary, e: MappingEntry,
                                              v: ObjectValue, es: seq<MappingEntry>, vs: seq<ObjectValue>)
    requires |es| == |vs| && HasLocation(d, e.index, e.sub)
    requires OnlyChanges(d, d1, e.index, e.sub, v) && Unpacked(d1, es, vs, d2)
    requires forall k :: 0 <= k < |es| ==> !SameLocation(e, es[k])
    ensures Read(d2, e.index, e.sub) == Some(v)
  {
    assert HasLocation(d1, e.index, e.sub) && Value(d1, e.index, e.sub) == v;
    assert HasLocation(d2, e.index, e.sub);
  }

  lemma {:induction false} ReadsCons(d: Dictionary, e: MappingEntry, v: ObjectValue,
                                     es: seq<MappingEntry>, vs: seq<ObjectValue>)
    requires |es| == |vs| && Read(d, e.index, e.sub) == Some(v)
    requires forall k :: 0 <= k < |es| ==> Read(d, es[k].index, es[k].sub) == Some(vs[k])
    ensures forall k :: 0 <= k < |[e] + es| ==>
              Read(d, ([e] + es)[k].index, ([e] + es)[k].sub) == Some(([v] + vs)[k])
  {
    forall k | 0 <= k < |[e] + es| ensures Read(d, ([e] + es)[k].index, ([e] + es)[k].sub) == Some(([v] + vs)[k]) {
      if k > 0 { assert ([e] + es)[k] == es[k - 1] && ([v] + vs)[k] == vs[k - 1]; }
    }
  }

  /** What no entry names is as it was. */
  lemma {:induction false} OthersStay(d: Dictionary, d1: Dictionary, d2: Dictionary, e: MappingEntry, v: ObjectValue,
                                      es: seq<MappingEntry>, vs: seq<ObjectValue>, i: u16, s: u8)
    requires |es| == |vs| && HasLocation(d, i, s) && !(e.index == i && e.sub == s)
    requires OnlyChanges(d, d1, e.index, e.sub, v) && Unpacked(d1, es, vs, d2)
    requires forall k :: 0 <= k < |es| ==> !(es[k].index == i && es[k].sub == s)
    ensures HasLocation(d2, i, s) && Value(d2, i, s) == Value(d, i, s)
  {
    assert HasLocation(d1, i, s) && Value(d1, i, s) == Value(d, i, s);
  }

  lemma {:induction false} OthersStayAll(d: Dictionary, d1: Dictionary, d2: Dictionary, e: MappingEntry,
                                         v: ObjectValue, es: seq<MappingEntry>, vs: seq<ObjectValue>)
    requires |es| == |vs| && OnlyChanges(d, d1, e.index, e.sub, v) && Unpacked(d1, es, vs, d2)
    ensures forall i: u16, s: u8 :: HasLocation(d, i, s) && NoneNames([e] + es, i, s) ==>
              HasLocation(d2, i, s) && Value(d2, i, s) == Value(d, i, s)
  {
    forall i: u16, s: u8 | HasLocation(d, i, s) && NoneNames([e] + es, i, s)
      ensures HasLocation(d2, i, s) && Value(d2, i, s) == Value(d, i, s)
    {
      assert ([e] + es)[0] == e;
      forall k | 0 <= k < |es| ensures !(es[k].index == i && es[k].sub == s) { assert ([e] + es)[k + 1] == es[k]; }
      OthersStay(d, d1, d2, e, v, es, vs, i, s);
    }
  }

  lemma {:induction false} UnpackedCons(d: Dictionary, d1: Dictionary, d2: Dictionary, e: MappingEntry,
                                        v: ObjectValue, es: seq<MappingEntry>, vs: seq<ObjectValue>)
    requires |es| == |vs| && HasLocation(d, e.index, e.sub)
    requires OnlyChanges(d, d1, e.index, e.sub, v) && Unpacked(d1, es, vs, d2)
    requires forall k :: 0 <= k < |es| ==> !SameLocation(e, es[k])
    ensures Unpacked(d, [e] + es, [v] + vs, d2)
  {
    SameShapeEquivalence(d, d1, d2);
    FirstStaysUnpacked(d, d1, d2, e, v, es, vs);
    ReadsCons(d2, e, v, es, vs);
    OthersStayAll(d, d1, d2, e, v, es, vs);
  }

  /**
   * Unpacking inverts placing: every mapped location reads the value that was serialised into
   * the payload for it, and nothing else in the node changes.
   */
  lemma {:induction false} UnpackInvertsPlace(n: NodeState, es: seq<MappingEntry>, vs: seq<ObjectValue>,
                                              payload: seq<u8>, node: u8)
    requires Placed(n.od.entries, es, vs, payload)
    ensures var n' := AppliedAll(n, es, payload, node);
            n' == n.(od := n.od.(entries := n'.od.entries)) && Unpacked(n.od.entries, es, vs, n'.od.entries)
    decreases |es|
  {
    if es == [] {
      SameShapeEquivalence(n.od.entries, n.od.entries, n.od.entries);
    } else {
      OneEntry(n, es[0], vs[0], payload, node);
      var n1 := Applied(n, es[0], payload, node).0;
      PlacedTail(n.od.entries, es, vs, payload);
      StillPlaced(n.od.entries, n1.od.entries, es[0], vs[0], es[1..], vs[1..], payload);
      UnpackInvertsPlace(n1, es[1..], vs[1..], payload, node);
      var n2 := AppliedAll(n1, es[1..], payload, node);
      UnpackedCons(n.od.entries, n1.od.entries, n2.od.entries, es[0], vs[0], es[1..], vs[1..]);
      assert [es[0]] + es[1..] == es && [vs[0]] + vs[1..] == vs;
    }
  }

  lemma PlacedTail(d: Dictionary, es: seq<MappingEntry>, vs: seq<ObjectValue>, payload: seq<u8>)
    requires Placed(d, es, vs, payload) && es != []
    ensures Placed(d, es[1..], vs[1..], payload)
    ensures forall k :: 0 <= k < |es[1..]| ==> !SameLocation(es[0], es[1..][k])
  {
    forall k | 0 <= k < |es| - 1 ensures HoldsValue(d, es[1..][k], vs[1..][k], payload) {
      assert HoldsValue(d, es[k + 1], vs[k + 1], payload);
    }
  }

  predicate Overruns(e: MappingEntry, payload: seq<u8>) { !InBounds(e, |payload|) }

  lemma {:induction false} AppliedAllSplit(n: NodeState, a: seq<MappingEntry>, e: MappingEntry, b: seq<MappingEntry>,
                                           vs: seq<ObjectValue>, payload: seq<u8>, node: u8)
    requires Placed(n.od.entries, a, vs, payload) && Overruns(e, payload)
    ensures AppliedAll(n, a + [e] + b, payload, node)
         == Noted(Short(AppliedAll(n, a, payload, node), node), ERR_SHORT_RX, node)
    decreases |a|
  {
    var all := a + [e] + b;
    if a == [] {
      assert all[0] == e;
    } else {
      OneEntry(n, a[0], vs[0], payload, node);
      var n1 := Applied(n, a[0], payload, node).0;
      PlacedTail(n.od.entries, a, vs, payload);
      StillPlaced(n.od.entries, n1.od.entries, a[0], vs[0], a[1..], vs[1..], payload);
      AppliedAllSplit(n1, a[1..], e, b, vs[1..], payload, node);
      assert all[0] == a[0] && all[1..] == a[1..] + [e] + b;
    }
  }

  /**
   * At the first entry that overruns the payload, exactly the earlier entries have been applied;
   * besides, one short payload is reported and the node is noted in 0x1C81.
   */
  lemma OverrunStops(n: NodeState, a: seq<MappingEntry>, e: MappingEntry, b: seq<MappingEntry>, vs: seq<ObjectValue>,
                     payload: seq<u8>, node: u8)
    requires Placed(n.od.entries, a, vs, payload) && Overruns(e, payload)
    ensures var n' := AppliedAll(n, a + [e] + b, payload, node);
            exists d: Dictionary ::
              && Unpacked(n.od.entries, a, vs, d)
              && n' == n.(od := n.od.(entries := ErrorNoted(d, ERR_SHORT_RX, node)),
                          reports := n.reports + [PdoPayloadShort(node)])
  {
    AppliedAllSplit(n, a, e, b, vs, payload, node);
    UnpackInvertsPlace(n, a, vs, payload, node);
    var d := AppliedAll(n, a, payload, node).od.entries;
    assert Unpacked(n.od.entries, a, vs, d);
  }

  /**
   * Once the whole mapping of a channel has been validated, no entry that the node applies can
   * overrun a payload of at least the configured limit.
   */
  lemma ValidatedChannelNeverOverruns(d: Dictionary, i: nat, n: u8, payload: seq<u8>)
    requires i < 0x100 && n > 0 && Validation(d, 0x1600 + i, n).Ok?
    requires n >= MappingCount(d, 0x1600 + i) && |payload| >= PayloadLimit(d, 0x1600 + i)
    ensures forall k :: 0 <= k < |ChannelEntries(d, i)| ==> !Overruns(ChannelEntries(d, i)[k], payload)
  {
    ValidatedNeverRunsShort(d, 0x1600 + i, n, |payload|);
  }

  lemma ConsumptionOfChannel(n: NodeState, i: nat, node: u8, payload: seq<u8>, version: u8)
    requires i < 0x100 && FirstChannel(n.od.entries, 0, node) == Some(i)
    requires VersionOk(GetOr(ReadU8(n.od.entries, 0x1400 + i, 2), 0), version)
    ensures Consumption(n, node, payload, version, true)
            == AppliedAll(n, ChannelEntries(n.od.entries, i), payload, node)
  {}

  /** A whole received PDO with a matching channel and version unpacks to the placed values. */
  lemma ConsumptionUnpacks(n: NodeState, i: nat, node: u8, payload: seq<u8>, version: u8, vs: seq<ObjectValue>)
    requires i < 0x100 && FirstChannel(n.od.entries, 0, node) == Some(i)
    requires VersionOk(GetOr(ReadU8(n.od.entries, 0x1400 + i, 2), 0), version)
    requires Placed(n.od.entries, ChannelEntries(n.od.entries, i), vs, payload)
    ensures var n' := Consumption(n, node, payload, version, true);
            && n' == n.(od := n.od.(entries := n'.od.entries))
            && Unpacked(n.od.entries, ChannelEntries(n.od.entries, i), vs, n'.od.entries)
  {
    var es := ChannelEntries(n.od.entries, i);
    ConsumptionOfChannel(n, i, node, payload, version);
    UnpackInvertsPlace(n, es, vs, payload, node);
  }

  /** A whole received PDO whose mapping overruns the payload: exactly the entries in front are applied. */
  lemma {:induction false} ConsumptionOverruns(n: NodeState, i: nat, node: u8, payload: seq<u8>, version: u8,
      a: seq<MappingEntry>, e: MappingEntry, b: seq<MappingEntry>, vs: seq<ObjectValue>)
    requires i < 0x100 && FirstChannel(n.od.entries, 0, node) == Some(i)
    requires VersionOk(GetOr(ReadU8(n.od.entries, 0x1400 + i, 2), 0), version)
    requires ChannelEntries(n.od.entries, i) == a + [e] + b
    requires Placed(n.od.entries, a, vs, payload) && Overruns(e, payload)
    ensures var n' := Consumption(n, node, payload, version, true);
            exists d: Dictionary ::
              && Unpacked(n.od.entries, a, vs, d)
              && n' == n.(od := n.od.(entries := ErrorNoted(d, ERR_SHORT_RX, node)),
                          reports := n.reports + [PdoPayloadShort(node)])
  {
    ConsumptionOfChannel(n, i, node, payload, version);
    OverrunStops(n, a, e, b, vs, payload, node);
  }

  /** The only entries that can stop the node are client containers with too short an abort. */
  lemma {:induction false} AppliedHalts(n: NodeState, e: MappingEntry, payload: seq<u8>, node: u8)
    requires !n.halted
    ensures Applied(n, e, payload, node).0.halted <==>
              && InBounds(e, |payload|) && ByteAligned(e) && 0x1280 <= e.index <= 0x12FF && e.index in n.client
              && var slice := payload[ByteOffset(e).value..ByteOffset(e).value + ByteLength(e).value];
                 && Client.Answers(n.client[e.index], slice)
                 && Decode(slice).value.isAborted && |Decode(slice).value.data| < 4
  {}

  // ---- The node lists ----

  lemma WithBitExact(b: u8, k: nat, j: nat)
    requires k < 8
    ensures Bit(WithBit(b, k), j) == (Bit(b, j) || j == k)
  {
    BitOrBits(b, Pow2(k), j);
    BitOfPow2(k, j);
  }

  /** Noting a node sets exactly its bit in the list and changes nothing else in the dictionary. */
  lemma NotedExact(d: Dictionary, index: u16, node: u8, bytes: seq<u8>)
    requires 1 <= node < MN_NODE_ID && Read(d, index, 0) == Some(OctetString(bytes))
             && (node - 1) / 8 < |bytes|
    ensures var d' := ErrorNoted(d, index, node);
            && Read(d', index, 0).Some? && Read(d', index, 0).value.OctetString?
            && var bytes' := Read(d', index, 0).value.octets;
               && OnlyChanges(d, d', index, 0, OctetString(bytes'))
               && |bytes'| == |bytes|
               && forall m, j :: 0 <= m < |bytes| && 0 <= j < 8 ==>
                    Bit(bytes'[m], j) == (Bit(bytes[m], j) || 8 * m + j == node - 1)
  {
    var at, bit := (node - 1) / 8, (node - 1) % 8;
    var v := OctetString(bytes[at := WithBit(bytes[at], bit)]);
    WriteExact(d, index, 0, v, false);
    forall m, j | 0 <= m < |bytes| && 0 <= j < 8
      ensures Bit(v.octets[m], j) == (Bit(bytes[m], j) || 8 * m + j == node - 1)
    {
      if m == at { WithBitExact(bytes[at], bit, j); }
    }
  }
}
