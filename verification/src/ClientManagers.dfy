/**
 * The map of client connections by node (crates/powerlink-rs/src/sdo/client_manager.rs).
 */
module ClientManagers {
  import opened Wrappers
  import opened Bytes
  import opened SdoCommands
  import opened ConciseDcf
  import opened ClientSteps
  import opened ClientRuns
  import opened ObjectDictionaries
  import opened ClientConnections

  type Conns = map<u8, Conn>

  datatype ManagerState = ManagerState(conns: Conns, nextTid: u8)

  // ---- Specification functions ----

  ghost predicate AllValid(m: Conns) { forall i :: i in m ==> Valid(m[i]) }

  type Outcome = (Conn, Option<Frame>)

  /** What an operation would do to each connection. */
  ghost function Steps(m: Conns, op: Op): map<u8, Outcome> {
    map i | i in m && Valid(m[i]) :: Step(m[i], op)
  }

  /** Lets the connections act in ascending order of node until one of them has a frame to send. */
  ghost function ServeFrom(m: Conns, steps: map<u8, Outcome>, id: nat): (Conns, Option<(u8, Frame)>)
    requires id <= 0x100
    decreases 0x100 - id
  {
    if id == 0x100 then (m, None)
    else if id !in steps then ServeFrom(m, steps, id + 1)
    else
      var (c, out) := steps[id];
      if out.Some? then (m[id := c], Some((id, out.value))) else ServeFrom(m[id := c], steps, id + 1)
  }

  function Pruned(m: Conns): Conns { map i | i in m && !m[i].state.Closed? :: m[i] }

  ghost function Served(m: Conns, op: Op): (Conns, Option<(u8, Frame)>)
    requires AllValid(m)
  {
    ServedAs(m, Steps(m, op))
  }

  ghost function ServedAs(m: Conns, steps: map<u8, Outcome>): (Conns, Option<(u8, Frame)>) {
    var (m', out) := ServeFrom(m, steps, 0);
    (Pruned(m'), out)
  }

  function ConnFor(m: Conns, node: u8): Conn { if node in m then m[node] else NewConn(node) }

  function AfterResponse(m: Conns, node: u8, h: SequenceHeader, cmd: SdoCommand): Conns {
    if node !in m then m
    else
      var c := Responded(m[node], h, cmd);
      if c.state.Closed? then m - {node} else m[node := c]
  }

  // ---- The class ----

  class SdoClientManager {
    var connections: map<u8, SdoClientConnection>
    var nextTransactionId: u8

    ghost predicate Distinct()
      reads this
    {
      forall i, j :: i in connections && j in connections && i != j ==> connections[i] != connections[j]
    }

    ghost function Snaps(): Conns
      reads this, connections.Values
    {
      map i | i in connections :: connections[i].Snap()
    }

    constructor ()
      ensures Distinct() && Snaps() == map[] && connections == map[] && nextTransactionId == 0
    {
      connections := map[];
      nextTransactionId := 0;
    }

    method GetNextTid() returns (tid: u8)
      modifies this`nextTransactionId
      ensures tid == nextTransactionId == NextTid(old(nextTransactionId))
    {
      nextTransactionId := (nextTransactionId + 1) % 0x100;
      if nextTransactionId == 0 {
        nextTransactionId := 1;
      }
      tid := nextTransactionId;
    }

    /** The connection of a node, created idle when it is not there yet. */
    method Connection(node: u8) returns (c: SdoClientConnection)
      requires Distinct()
      modifies this`connections
      ensures Distinct() && node in connections && connections[node] == c
      ensures connections == old(connections)[node := c]
      ensures if node in old(connections) then c == old(connections)[node] else fresh(c)
      ensures c.Snap() == ConnFor(old(Snaps()), node)
      ensures Snaps() == old(Snaps())[node := c.Snap()]
    {
      if node in connections {
        c := connections[node];
      } else {
        c := new SdoClientConnection(node);
        connections := connections[node := c];
      }
    }

    /** The earliest deadline of all connections. */
    method NextActionTime() returns (r: Option<nat>)
      ensures r.None? <==> forall i :: i in connections ==> connections[i].deadline.None?
      ensures r.Some? ==>
        && (exists i :: i in connections && connections[i].deadline == r)
        && (forall i :: i in connections && connections[i].deadline.Some? ==> r.value <= connections[i].deadline.value)
    {
      r := None;
      var todo := connections.Keys;
      while todo != {}
        invariant todo <= connections.Keys
        invariant r.None? ==> forall i :: i in connections && i !in todo ==> connections[i].deadline.None?
        invariant r.Some? ==>
          && (exists i :: i in connections && connections[i].deadline == r)
          && (forall i :: i in connections && i !in todo && connections[i].deadline.Some? ==>
                r.value <= connections[i].deadline.value)
        decreases |todo|
      {
        var i :| i in todo;
        todo := todo - {i};
        var d := connections[i].deadline;
        if d.Some? && (r.None? || d.value < r.value) {
          r := d;
        }
      }
    }

    method StartConciseDcfJobOn(node: u8, data: seq<u8>, tid: u8, now: nat, od: ObjectDictionary)
        returns (r: Result<(), Error>)
      requires Distinct() && node in connections
      modifies connections[node]
      ensures (connections[node].Snap(), r)
              == DcfStarted(old(connections[node].Snap()), data, tid, now, TimingOf(od.entries))
      ensures Snaps() == old(Snaps())[node := connections[node].Snap()]
    {
      r := connections[node].StartConciseDcfJob(data, tid, now, od);
    }

    method StartConfigurationDownload(node: u8, data: seq<u8>, now: nat, od: ObjectDictionary)
        returns (r: Result<(), Error>)
      requires Distinct()
      modifies this, connections.Values
      ensures Distinct() && fresh(connections.Values - old(connections.Values))
      ensures nextTransactionId == NextTid(old(nextTransactionId))
      ensures node in Snaps() && Snaps() == old(Snaps())[node := Snaps()[node]]
      ensures (Snaps()[node], r)
              == DcfStarted(ConnFor(old(Snaps()), node), data, nextTransactionId, now, TimingOf(od.entries))
    {
      ghost var m := Snaps();
      var tid := GetNextTid();
      assert Snaps() == m;
      var c := Connection(node);
      ghost var c0 := c.Snap();
      assert node in old(connections) ==> c in old(connections).Values;
      r := StartConciseDcfJobOn(node, data, tid, now, od);
      UpdateTwice(m, node, c0, c.Snap());
    }

    method StartReadJobOn(node: u8, index: u16, sub: u8, tid: u8, now: nat, od: ObjectDictionary)
        returns (r: Result<(), Error>)
      requires Distinct() && node in connections
      modifies connections[node]
      ensures (connections[node].Snap(), r)
              == ReadStarted(old(connections[node].Snap()), index, sub, tid, now, TimingOf(od.entries))
      ensures Snaps() == old(Snaps())[node := connections[node].Snap()]
    {
      r := connections[node].StartReadJob(index, sub, tid, now, od);
    }

    method ReadObjectByIndex(node: u8, index: u16, sub: u8, now: nat, od: ObjectDictionary)
        returns (r: Result<(), Error>)
      requires Distinct()
      modifies this, connections.Values
      ensures Distinct() && fresh(connections.Values - old(connections.Values))
      ensures nextTransactionId == NextTid(old(nextTransactionId))
      ensures node in Snaps() && Snaps() == old(Snaps())[node := Snaps()[node]]
      ensures (Snaps()[node], r)
              == ReadStarted(ConnFor(old(Snaps()), node), index, sub, nextTransactionId, now, TimingOf(od.entries))
    {
      ghost var m := Snaps();
      var tid := GetNextTid();
      assert Snaps() == m;
      var c := Connection(node);
      ghost var c0 := c.Snap();
      assert node in old(connections) ==> c in old(connections).Values;
      r := StartReadJobOn(node, index, sub, tid, now, od);
      UpdateTwice(m, node, c0, c.Snap());
    }

    method StartWriteJobOn(node: u8, index: u16, sub: u8, data: seq<u8>, tid: u8, now: nat, od: ObjectDictionary)
        returns (r: Result<(), Error>)
      requires Distinct() && node in connections
      modifies connections[node]
      ensures (connections[node].Snap(), r)
              == WriteStarted(old(connections[node].Snap()), Entry(index, sub, data), tid, now, TimingOf(od.entries))
      ensures Snaps() == old(Snaps())[node := connections[node].Snap()]
    {
      r := connections[node].StartWriteJob(index, sub, data, tid, now, od);
    }

    method WriteObjectByIndex(node: u8, index: u16, sub: u8, data: seq<u8>, now: nat, od: ObjectDictionary)
        returns (r: Result<(), Error>)
      requires Distinct()
      modifies this, connections.Values
      ensures Distinct() && fresh(connections.Values - old(connections.Values))
      ensures nextTransactionId == NextTid(old(nextTransactionId))
      ensures node in Snaps() && Snaps() == old(Snaps())[node := Snaps()[node]]
      ensures (Snaps()[node], r)
              == WriteStarted(ConnFor(old(Snaps()), node), Entry(index, sub, data), nextTransactionId, now,
                              TimingOf(od.entries))
    {
      ghost var m := Snaps();
      var tid := GetNextTid();
      assert Snaps() == m;
      var c := Connection(node);
      ghost var c0 := c.Snap();
      assert node in old(connections) ==> c in old(connections).Values;
      r := StartWriteJobOn(node, index, sub, data, tid, now, od);
      UpdateTwice(m, node, c0, c.Snap());
    }

    method HandleResponse(source: u8, h: SequenceHeader, cmd: SdoCommand) returns (stopped: bool)
      requires Distinct()
      modifies this`connections, connections.Values
      ensures Distinct() && connections.Values <= old(connections.Values)
      ensures stopped <==> source in old(Snaps()) && Answered(old(Snaps())[source], h, cmd).None?
      ensures Snaps() == if stopped then old(Snaps())[source := Taken(old(Snaps())[source], h)]
                         else AfterResponse(old(Snaps()), source, h, cmd)
    {
      stopped := false;
      if source in connections {
        stopped := HandleResponseOn(source, h, cmd);
        if !stopped && connections[source].IsClosed() {
          connections := connections - {source};
        }
      }
    }

    method HandleResponseOn(source: u8, h: SequenceHeader, cmd: SdoCommand) returns (stopped: bool)
      requires Distinct() && source in connections
      modifies connections[source]
      ensures stopped <==> Answered(old(connections[source].Snap()), h, cmd).None?
      ensures connections[source].Snap() == if stopped then Taken(old(connections[source].Snap()), h)
                                            else Responded(old(connections[source].Snap()), h, cmd)
      ensures Snaps() == old(Snaps())[source := connections[source].Snap()]
    {
      stopped := connections[source].HandleResponse(h, cmd);
    }

    /** Takes the closed connections out of the map. */
    method Prune(closed: seq<u8>)
      requires Distinct()
      requires ClosedBelow(Snaps(), 0x100, closed)
      modifies this`connections
      ensures Distinct() && connections.Values <= old(connections.Values)
      ensures Snaps() == Pruned(old(Snaps()))
    {
      for k := 0 to |closed|
        invariant connections == old(connections) - (set i | i in closed[..k])
      {
        connections := connections - {closed[k]};
        assert closed[..k + 1] == closed[..k] + [closed[k]];
      }
      assert closed[..|closed|] == closed;
    }

    method TickOne(id: u8, now: nat, od: ObjectDictionary) returns (f: Option<Frame>)
      requires Distinct() && id in connections && Valid(connections[id].Snap())
      modifies connections[id]
      ensures (connections[id].Snap(), f) == Step(old(connections[id].Snap()), Op.Tick(now, TimingOf(od.entries)))
      ensures Snaps() == old(Snaps())[id := connections[id].Snap()]
    {
      f := connections[id].Tick(now, od);
    }

    /** One round of the loop: serve the node if nothing has been sent yet, and note it if it is closed. */
    method TickRound(id: u8, now: nat, od: ObjectDictionary, out: Option<(u8, Frame)>, prune: seq<u8>,
                     ghost start: Conns)
      returns (out': Option<(u8, Frame)>, prune': seq<u8>)
      requires Distinct() && AllValid(start)
      requires ServedBelow(Snaps(), start, Steps(start, Op.Tick(now, TimingOf(od.entries))), id, out, prune)
      modifies connections.Values
      ensures ServedBelow(Snaps(), start, Steps(start, Op.Tick(now, TimingOf(od.entries))), id + 1, out', prune')
    {
      out', prune' := out, prune;
      ghost var before, steps := Snaps(), Steps(start, Op.Tick(now, TimingOf(od.entries)));
      if id in connections {
        if out.None? {
          var f := TickOne(id, now, od);
          if f.Some? {
            out' := Some((id, f.value));
          }
        }
        if connections[id].IsClosed() {
          prune' := prune + [id];
        }
      }
      ServedBelowStep(before, Snaps(), start, steps, id, out, out', prune, prune');
    }

    /** The loop over all nodes, which also lists the closed connections. */
    method TickAll(now: nat, od: ObjectDictionary) returns (out: Option<(u8, Frame)>, prune: seq<u8>)
      requires Distinct() && AllValid(Snaps())
      modifies connections.Values
      ensures ClosedBelow(Snaps(), 0x100, prune)
      ensures (Snaps(), out) == ServeFrom(old(Snaps()), Steps(old(Snaps()), Op.Tick(now, TimingOf(od.entries))), 0)
    {
      ghost var start := Snaps();
      out, prune := None, [];
      for id := 0 to 0x100
        invariant ServedBelow(Snaps(), start, Steps(start, Op.Tick(now, TimingOf(od.entries))), id, out, prune)
      {
        out, prune := TickRound(id, now, od, out, prune, start);
      }
    }

    method Tick(now: nat, od: ObjectDictionary) returns (out: Option<(u8, Frame)>)
      requires Distinct() && AllValid(Snaps())
      modifies this`connections, connections.Values
      ensures Distinct() && connections.Values <= old(connections.Values)
      ensures (Snaps(), out) == Served(old(Snaps()), Op.Tick(now, TimingOf(od.entries)))
    {
      var prune: seq<u8>;
      out, prune := TickAll(now, od);
      Prune(prune);
    }

    method GetPendingRequestOne(id: u8, now: nat, od: ObjectDictionary) returns (f: Option<Frame>)
      requires Distinct() && id in connections && Valid(connections[id].Snap())
      modifies connections[id]
      ensures (connections[id].Snap(), f) == Step(old(connections[id].Snap()), Op.Poll(now, TimingOf(od.entries)))
      ensures Snaps() == old(Snaps())[id := connections[id].Snap()]
    {
      f := connections[id].GetPendingRequest(now, od);
    }

    /** One round of the loop: serve the node if nothing has been sent yet, and note it if it is closed. */
    method GetPendingRequestRound(id: u8, now: nat, od: ObjectDictionary, out: Option<(u8, Frame)>, prune: seq<u8>,
                                  ghost start: Conns)
      returns (out': Option<(u8, Frame)>, prune': seq<u8>)
      requires Distinct() && AllValid(start)
      requires ServedBelow(Snaps(), start, Steps(start, Op.Poll(now, TimingOf(od.entries))), id, out, prune)
      modifies connections.Values
      ensures ServedBelow(Snaps(), start, Steps(start, Op.Poll(now, TimingOf(od.entries))), id + 1, out', prune')
    {
      out', prune' := out, prune;
      ghost var before, steps := Snaps(), Steps(start, Op.Poll(now, TimingOf(od.entries)));
      if id in connections {
        if out.None? {
          var f := GetPendingRequestOne(id, now, od);
          if f.Some? {
            out' := Some((id, f.value));
          }
        }
        if connections[id].IsClosed() {
          prune' := prune + [id];
        }
      }
      ServedBelowStep(before, Snaps(), start, steps, id, out, out', prune, prune');
    }

    /** The loop over all nodes, which also lists the closed connections. */
    method GetPendingRequestAll(now: nat, od: ObjectDictionary) returns (out: Option<(u8, Frame)>, prune: seq<u8>)
      requires Distinct() && AllValid(Snaps())
      modifies connections.Values
      ensures ClosedBelow(Snaps(), 0x100, prune)
      ensures (Snaps(), out) == ServeFrom(old(Snaps()), Steps(old(Snaps()), Op.Poll(now, TimingOf(od.entries))), 0)
    {
      ghost var start := Snaps();
      out, prune := None, [];
      for id := 0 to 0x100
        invariant ServedBelow(Snaps(), start, Steps(start, Op.Poll(now, TimingOf(od.entries))), id, out, prune)
      {
        out, prune := GetPendingRequestRound(id, now, od, out, prune, start);
      }
    }

    method GetPendingRequest(now: nat, od: ObjectDictionary) returns (out: Option<(u8, Frame)>)
      requires Distinct() && AllValid(Snaps())
      modifies this`connections, connections.Values
      ensures Distinct() && connections.Values <= old(connections.Values)
      ensures (Snaps(), out) == Served(old(Snaps()), Op.Poll(now, TimingOf(od.entries)))
    {
      var prune: seq<u8>;
      out, prune := GetPendingRequestAll(now, od);
      Prune(prune);
    }
  }

  lemma UpdateTwice(m: Conns, i: u8, a: Conn, b: Conn)
    ensures m[i := a][i := b] == m[i := b]
  {}

  /** The list holds exactly the closed connections below a node. */
  ghost predicate ClosedBelow(m: Conns, id: nat, closed: seq<u8>) {
    forall i: u8 :: i in closed <==> i in m && i < id && m[i].state.Closed?
  }

  /** The loop has dealt with the nodes below id: what is done and what is left make up the whole. */
  ghost predicate ServedBelow(m: Conns, start: Conns, steps: map<u8, Outcome>, id: nat, out: Option<(u8, Frame)>,
                              closed: seq<u8>)
    requires id <= 0x100
  {
    && ClosedBelow(m, id, closed)
    && m.Keys == start.Keys
    && (forall i: u8 :: i in start && id <= i ==> m[i] == start[i])
    && ServeFrom(start, steps, 0) == if out.None? then ServeFrom(m, steps, id) else (m, out)
  }

  lemma ServedBelowStep(m: Conns, m': Conns, start: Conns, steps: map<u8, Outcome>, id: u8,
                        out: Option<(u8, Frame)>, out': Option<(u8, Frame)>, closed: seq<u8>, closed': seq<u8>)
    requires ServedBelow(m, start, steps, id, out, closed) && steps.Keys == start.Keys
    requires id in m' <==> id in m
    requires if id in m && out.None? then m' == m[id := steps[id].0] else m' == m
    requires out' == if id in m && out.None? && steps[id].1.Some? then Some((id, steps[id].1.value)) else out
    requires closed' == if id in m && m'[id].state.Closed? then closed + [id] else closed
    ensures ServedBelow(m', start, steps, id + 1, out', closed')
  {
    forall i: u8 ensures i in closed + [id] <==> i in closed || i == id {}
  }
}
