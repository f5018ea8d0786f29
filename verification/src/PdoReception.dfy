/**
 * When a received PDO is applied, to which channel, and what each kind of entry does, told from the
 * stored objects and the received bytes alone (crates/powerlink-rs/src/node/pdo_handler.rs; EPSG DS 301, section 6.4).
 */
module PdoReception {
  import opened Wrappers
  import opened Bytes
  import opened ObjectValues
  import opened Entries
  import opened PdoMapping
  import opened PdoHandlers
  import Server = EmbeddedServers
  import Client = EmbeddedClients

  // ---- Channels ----

  /** Channel i is set up to receive from a node: by its number, or by 0 for the managing node 240. */
  predicate SetUpFor(d: Dictionary, i: nat, node: u8)
    requires i < 0x100
  {
    exists id: u8 :: Read(d, 0x1400 + i, 1) == Some(Unsigned8(id))
        && ((id == node && node != 0) || (id == 0 && node == 240))
  }

  /** It is the first that is. */
  ghost predicate IsChannelOf(d: Dictionary, i: nat, node: u8)
    requires i < 0x100
  {
    SetUpFor(d, i, node) && forall j :: 0 <= j < i ==> !SetUpFor(d, j, node)
  }

  lemma SetUpIsMatched(d: Dictionary, i: nat, node: u8)
    requires i < 0x100
    ensures SetUpFor(d, i, node) <==> ChannelMatches(d, i, node)
  {
    match Read(d, 0x1400 + i, 1) {
      case Some(Unsigned8(id)) => assert Read(d, 0x1400 + i, 1) == Some(Unsigned8(id));
      case _ =>
    }
  }

  lemma {:induction false} ChannelIsFirst(d: Dictionary, i: nat, node: u8)
    requires i < 0x100 && IsChannelOf(d, i, node)
    ensures FirstChannel(d, 0, node) == Some(i)
  {
    FirstChannelExact(d, 0, node);
    forall j | 0 <= j < 0x100 ensures SetUpFor(d, j, node) <==> ChannelMatches(d, j, node) {
      SetUpIsMatched(d, j, node);
    }
  }

  // ---- Versions ----

  /** A version is a main and a sub number of four bits each. */
  predicate IsVersion(v: u8, main: nat, sub: nat) { sub < 16 && v == 16 * main + sub }

  /** The version that a channel expects; 0 if it has none. */
  function Expected(d: Dictionary, i: nat): u8
    requires i < 0x100
  {
    match Read(d, 0x1400 + i, 2)
    case Some(Unsigned8(v)) => v
    case _ => 0
  }

  /** Without expectation only version 0 will do; otherwise the same main and at least the same sub number. */
  predicate Compatible(expected: u8, received: u8, em: nat, es: nat, rm: nat, rs: nat)
    requires IsVersion(expected, em, es) && IsVersion(received, rm, rs)
  {
    if expected == 0 then received == 0 else em == rm && es <= rs
  }

  lemma CompatibleIsOk(expected: u8, received: u8, em: nat, es: nat, rm: nat, rs: nat)
    requires IsVersion(expected, em, es) && IsVersion(received, rm, rs)
    ensures Compatible(expected, received, em, es, rm, rs) <==> VersionOk(expected, received)
  {
    assert expected / 16 == em && expected % 16 == es;
    assert received / 16 == rm && received % 16 == rs;
  }

  /** d' is d with exactly the bit of a node set in the node list at an index, if the list is there and long enough. */
  ghost predicate NodeNoted(d: Dictionary, d': Dictionary, index: u16, node: u8) {
    match Read(d, index, 0)
    case Some(OctetString(bytes)) =>
      if 1 <= node <= 239 && (node - 1) / 8 < |bytes| then
        exists bytes': seq<u8> ::
          && OnlyChanges(d, d', index, 0, OctetString(bytes')) && |bytes'| == |bytes|
          && forall m, j :: 0 <= m < |bytes| && 0 <= j < 8 ==>
               Bit(bytes'[m], j) == (Bit(bytes[m], j) || 8 * m + j == node - 1)
      else d' == d
    case _ => d' == d
  }

  lemma {:induction false} NotedIsNodeNoted(d: Dictionary, index: u16, node: u8)
    ensures NodeNoted(d, ErrorNoted(d, index, node), index, node)
  {
    match Read(d, index, 0) {
      case Some(OctetString(bytes)) =>
        if 1 <= node <= 239 && (node - 1) / 8 < |bytes| { NotedExact(d, index, node, bytes); }
      case _ =>
    }
  }

  /**
   * A ready PDO on the channel of its node is applied if and only if its version is compatible with the
   * expected one. Otherwise exactly one wrong version is reported, the node is noted in 0x1C80, and nothing else
   * changes.
   */
  lemma {:induction false} AppliedIffCompatible(n: NodeState, i: nat, node: u8, payload: seq<u8>, received: u8,
                                                em: nat, es: nat, rm: nat, rs: nat)
    requires i < 0x100 && IsChannelOf(n.od.entries, i, node)
    requires IsVersion(Expected(n.od.entries, i), em, es) && IsVersion(received, rm, rs)
    ensures var n' := Consumption(n, node, payload, received, true);
            if Compatible(Expected(n.od.entries, i), received, em, es, rm, rs) then
              n' == AppliedAll(n, ChannelEntries(n.od.entries, i), payload, node)
            else
              && n' == n.(reports := n.reports + [PdoMapVersion(node)], od := n.od.(entries := n'.od.entries))
              && NodeNoted(n.od.entries, n'.od.entries, 0x1C80, node)
  {
    ChannelIsFirst(n.od.entries, i, node);
    CompatibleIsOk(Expected(n.od.entries, i), received, em, es, rm, rs);
    NotedIsNodeNoted(n.od.entries, 0x1C80, node);
  }

  /** A PDO that is not ready, or whose node no channel is set up for, changes nothing. */
  lemma {:induction false} IgnoredWithoutChannel(n: NodeState, node: u8, payload: seq<u8>, received: u8, ready: bool)
    requires !ready || forall i :: 0 <= i < 0x100 ==> !SetUpFor(n.od.entries, i, node)
    ensures Consumption(n, node, payload, received, ready) == n
  {
    FirstChannelExact(n.od.entries, 0, node);
    forall i | 0 <= i < 0x100 ensures SetUpFor(n.od.entries, i, node) <==> ChannelMatches(n.od.entries, i, node) {
      SetUpIsMatched(n.od.entries, i, node);
    }
  }

  // ---- The entries of a channel ----

  /** The entries of a channel whose mapping is an array of 64-bit values are those of all elements, in order. */
  lemma {:induction false} EntriesOfArray(d: Dictionary, i: nat, values: seq<ObjectValue>)
    requires i < 0x100 && 0x1600 + i in d && d[0x1600 + i].obj == Array(values) && |values| <= 254
    requires forall k :: 0 <= k < |values| ==> values[k].Unsigned64?
    ensures |ChannelEntries(d, i)| == |values|
    ensures forall k :: 0 <= k < |values| ==> ChannelEntries(d, i)[k] == FromU64(values[k].uint64)
  {
    EntriesUpTo(d, 0x1600 + i, values, |values|);
  }

  lemma {:induction false} EntriesUpTo(d: Dictionary, index: u16, values: seq<ObjectValue>, n: nat)
    requires index in d && d[index].obj == Array(values) && n <= |values| <= 254
    requires forall k :: 0 <= k < |values| ==> values[k].Unsigned64?
    ensures |MappedEntries(d, index, n)| == n
    ensures forall k :: 0 <= k < n ==> MappedEntries(d, index, n)[k] == FromU64(values[k].uint64)
  {
    if n > 0 { EntriesUpTo(d, index, values, n - 1); }
  }

  // ---- What each kind of entry does ----

  /**
   * An entry whose bits are no whole bytes is skipped, and so is one inside the payload that names a client
   * channel without a connection, or no readable place outside the SDO channels.
   */
  lemma {:induction false} EntrySkipped(n: NodeState, e: MappingEntry, payload: seq<u8>, node: u8)
    requires || e.offsetBits % 8 != 0 || e.lengthBits % 8 != 0
             || ((e.offsetBits + e.lengthBits) / 8 <= |payload|
                 && if 0x1200 <= e.index <= 0x12FF then e.index >= 0x1280 && e.index !in n.client
                    else Read(n.od.entries, e.index, e.sub).None?)
    ensures Applied(n, e, payload, node) == (n, true)
  {
    if e.offsetBits % 8 == 0 && e.lengthBits % 8 == 0 { BytesOfBits(e); }
  }

  /**
   * An entry of an SDO channel hands its bytes to that channel alone, and only an abort that stops the program
   * ends the PDO.
   */
  lemma {:induction false} EntryForChannel(n: NodeState, e: MappingEntry, payload: seq<u8>, node: u8)
    requires e.offsetBits % 8 == 0 && e.lengthBits % 8 == 0 && (e.offsetBits + e.lengthBits) / 8 <= |payload|
    requires 0x1200 <= e.index <= 0x12FF && (e.index >= 0x1280 ==> e.index in n.client)
    ensures var (n', ok) := Applied(n, e, payload, node);
            var bytes := payload[e.offsetBits / 8..(e.offsetBits + e.lengthBits) / 8];
            && n'.reports == n.reports
            && (forall c: u16 :: c != e.index ==> Server.ConnOf(n'.server, c) == Server.ConnOf(n.server, c))
            && (forall c: u16 :: c != e.index ==> Client.ConnOf(n'.client, c) == Client.ConnOf(n.client, c))
            && if e.index < 0x1280 then
                 ok && n'.client == n.client
                 && (Server.ConnOf(n'.server, e.index), n'.od)
                    == Server.Handled(Server.ConnOf(n.server, e.index), bytes, n.od)
               else
                 && n'.server == n.server && n'.od == n.od && ok == !Client.Stops(n.client[e.index], bytes)
                 && n'.client[e.index] == Client.AfterResponse(n.client[e.index], bytes)
                 && n'.halted == (n.halted || !ok)
  {
    BytesOfBits(e);
  }

  /** An entry that overruns the payload stops the PDO: one short payload is reported and the node noted in 0x1C81. */
  lemma {:induction false} EntryOverruns(n: NodeState, e: MappingEntry, payload: seq<u8>, node: u8)
    requires e.offsetBits % 8 == 0 && e.lengthBits % 8 == 0 && (e.offsetBits + e.lengthBits) / 8 > |payload|
    ensures var (n', ok) := Applied(n, e, payload, node);
            && !ok && n' == n.(reports := n.reports + [PdoPayloadShort(node)], od := n.od.(entries := n'.od.entries))
            && NodeNoted(n.od.entries, n'.od.entries, 0x1C81, node)
  {
    BytesOfBits(e);
    NotedIsNodeNoted(n.od.entries, 0x1C81, node);
  }

  /** An entry whose bytes do not decode stops the PDO as well, but the node is not noted. */
  lemma {:induction false} EntryUndecodable(n: NodeState, e: MappingEntry, payload: seq<u8>, node: u8)
    requires e.offsetBits % 8 == 0 && e.lengthBits % 8 == 0 && (e.offsetBits + e.lengthBits) / 8 <= |payload|
    requires !(0x1200 <= e.index <= 0x12FF) && Read(n.od.entries, e.index, e.sub).Some?
    requires !Decodable(payload[e.offsetBits / 8..(e.offsetBits + e.lengthBits) / 8],
                        Read(n.od.entries, e.index, e.sub).value)
    ensures Applied(n, e, payload, node) == (n.(reports := n.reports + [PdoPayloadShort(node)]), false)
  {
    BytesOfBits(e);
    DecodesDecodable(SliceOf(e, payload), Read(n.od.entries, e.index, e.sub).value);
  }

  /** How such an entry ends or goes on with the PDO. */
  lemma {:induction false} EntriesFrom(n: NodeState, es: seq<MappingEntry>, payload: seq<u8>, node: u8)
    requires es != []
    ensures var (n', ok) := Applied(n, es[0], payload, node);
            AppliedAll(n, es, payload, node) == if ok then AppliedAll(n', es[1..], payload, node) else n'
  {}
}
