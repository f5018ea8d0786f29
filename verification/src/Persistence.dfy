/**
 * Stored parameters, power-on values and the layered boot, as functions of the dictionary
 * (crates/powerlink-rs/src/od/commands.rs, storage.rs, predefined.rs, mod.rs:249-300).
 */
module Persistence {
  import opened Wrappers
  import opened Bytes
  import opened ObjectValues
  import opened Entries

  type Parameters = map<Location, ObjectValue>

  /** Which calls of the storage backend succeed. */
  datatype Health = Health(load: bool, save: bool, clear: bool, request: bool, clearFlag: bool)

  /** The non-volatile memory behind the dictionary. */
  datatype Storage = Storage(saved: Parameters, restoreRequested: bool, health: Health)

  // ---- Saving ----

  predicate IsStorable(e: ObjectEntry) { e.access == Some(ReadWriteStore) || e.access == Some(WriteOnlyStore) }

  predicate InSaveGroup(list: u8, index: u16) {
    match list
    case 1 => true
    case 2 => 0x1000 <= index <= 0x1FFF
    case 3 => 0x6000 <= index <= 0x9FFF
    case _ => false
  }

  /** The sub-index under which the source stores element k: one more, cut to a byte. */
  function StoredSub(k: nat): u8 { (k + 1) % 0x100 }

  /** The elements of an array or record, stored front to back. */
  function ListParameters(index: u16, values: seq<ObjectValue>): Parameters {
    if values == [] then map[]
    else
      var k := |values| - 1;
      ListParameters(index, values[..k])[(index, StoredSub(k)) := values[k]]
  }

  function ObjectParameters(index: u16, o: Object): Parameters {
    if o.Variable? then map[(index, 0) := o.value] else ListParameters(index, o.values)
  }

  /** Everything one entry contributes to a save. */
  function EntryParameters(index: u16, e: ObjectEntry, list: u8): Parameters {
    if InSaveGroup(list, index) && IsStorable(e) then ObjectParameters(index, e.obj) else map[]
  }

  /** m is exactly what saving the entries with an index in done has to store. */
  ghost predicate Collects(d: Dictionary, list: u8, done: set<u16>, m: Parameters)
    requires done <= d.Keys
  {
    && (forall i: u16, s: u8 :: (i, s) in m <==> i in done && (i, s) in EntryParameters(i, d[i], list))
    && (forall i: u16, s: u8 :: (i, s) in m ==> m[(i, s)] == EntryParameters(i, d[i], list)[(i, s)])
  }

  function SavedParameters(d: Dictionary, list: u8): Parameters {
    map i: u16, s: u8 | i in d && 0 <= s < 0x100 && (i, s) in EntryParameters(i, d[i], list)
      :: (i, s) := EntryParameters(i, d[i], list)[(i, s)]
  }

  lemma {:induction false} ListParametersKeys(index: u16, values: seq<ObjectValue>)
    ensures forall loc :: loc in ListParameters(index, values) ==> loc.0 == index
  {
    if values != [] { ListParametersKeys(index, values[..|values| - 1]); }
  }

  lemma EntryParametersKeys(index: u16, e: ObjectEntry, list: u8)
    ensures forall loc :: loc in EntryParameters(index, e, list) ==> loc.0 == index
  {
    if !e.obj.Variable? { ListParametersKeys(index, e.obj.values); }
  }

  /** The element that ends up under the sub-index of element k: the last one that wraps to it. */
  function LastAlias(n: nat, k: nat): (r: nat)
    requires k < n
    ensures k <= r < n && r % 0x100 == k % 0x100
    decreases n - k
  {
    if k + 0x100 < n then LastAlias(n, k + 0x100) else k
  }

  lemma {:induction false} LastAliasShorter(n: nat, k: nat)
    requires k < n - 1
    ensures LastAlias(n, k) == if (n - 1) % 0x100 == k % 0x100 then n - 1 else LastAlias(n - 1, k)
    decreases n - k
  {
    if k + 0x100 < n - 1 {
      LastAliasShorter(n, k + 0x100);
    } else if k + 0x100 == n - 1 {
      assert LastAlias(n, k + 0x100) == n - 1;
    } else {
      assert 0 < n - 1 - k < 0x100;
    }
  }

  lemma StoredSubSame(j: nat, k: nat)
    ensures StoredSub(j) == StoredSub(k) <==> j % 0x100 == k % 0x100
  {}

  /** What a save holds for element k of a list, for lists of any length. */
  lemma {:induction false} SavedElement(index: u16, values: seq<ObjectValue>, k: nat)
    requires k < |values|
    ensures (index, StoredSub(k)) in ListParameters(index, values)
    ensures ListParameters(index, values)[(index, StoredSub(k))] == values[LastAlias(|values|, k)]
  {
    var n := |values|;
    if k < n - 1 {
      SavedElement(index, values[..n - 1], k);
      LastAliasShorter(n, k);
      StoredSubSame(k, n - 1);
    } else {
      assert LastAlias(n, k) == k;
    }
  }

  /** Whatever a list of n elements holds, each readable element is saved as itself. */
  ghost predicate SavesFaithfully(n: nat) {
    forall index: u16, values: seq<ObjectValue>, k: nat {:trigger ListParameters(index, values), values[k]} ::
      |values| == n && k < n && k < 0xFF ==>
        (index, StoredSub(k)) in ListParameters(index, values)
        && ListParameters(index, values)[(index, StoredSub(k))] == values[k]
  }

  /** Saving keeps every readable element exactly for lists of at most 256 elements. */
  lemma SavesFaithfullyExact(n: nat)
    ensures SavesFaithfully(n) <==> n <= 0x100
  {
    if n <= 0x100 {
      forall index: u16, values: seq<ObjectValue>, k: nat | |values| == n && k < n && k < 0xFF
        ensures (index, StoredSub(k)) in ListParameters(index, values)
        ensures ListParameters(index, values)[(index, StoredSub(k))] == values[k]
      {
        SavedElement(index, values, k);
      }
    } else {
      var last := LastAlias(n, 0);
      var zeros: seq<ObjectValue> := seq(n, _ => Unsigned8(0));
      var values := zeros[last := Unsigned8(1)];
      SavedElement(0, values, 0);
      assert last >= 0x100;
      assert values[0] == Unsigned8(0);
      assert ListParameters(0, values)[(0, StoredSub(0))] == Unsigned8(1);
    }
  }

  // ---- Overlaying stored parameters at boot ----

  function OverlayObject(index: u16, o: Object, m: Parameters): Object {
    match o
    case Variable(v) => Variable(OverlayValue(index, 0, v, m))
    case Array(vs) => Array(OverlayList(index, vs, m))
    case Record(vs) => Record(OverlayList(index, vs, m))
  }

  function OverlayValue(index: u16, sub: u8, v: ObjectValue, m: Parameters): ObjectValue {
    if (index, sub) in m && SameType(v, m[(index, sub)]) then m[(index, sub)] else v
  }

  function OverlayList(index: u16, vs: seq<ObjectValue>, m: Parameters): (r: seq<ObjectValue>)
    ensures |r| == |vs|
  {
    seq(|vs|, k requires 0 <= k < |vs| => if k < 0xFF then OverlayValue(index, k + 1, vs[k], m) else vs[k])
  }

  /** Every location takes its stored value if there is one of its type; nothing else changes. */
  function Overlay(d: Dictionary, m: Parameters): Dictionary {
    map i | i in d :: d[i].(obj := OverlayObject(i, d[i].obj, m))
  }

  lemma OverlayExact(d: Dictionary, m: Parameters)
    ensures SameShape(d, Overlay(d, m))
    ensures forall i: u16, s: u8 :: HasLocation(d, i, s) ==>
              && HasLocation(Overlay(d, m), i, s)
              && Value(Overlay(d, m), i, s) == OverlayValue(i, s, Value(d, i, s), m)
  {
    forall x: ObjectValue ensures SameType(x, x) { SameTypeEquivalence(x, x, x); }
  }

  lemma OverlayNothing(d: Dictionary)
    ensures Overlay(d, map[]) == d
  {
    forall i | i in d ensures Overlay(d, map[])[i] == d[i] {
      var o := d[i].obj;
      if !o.Variable? { assert OverlayList(i, o.values, map[]) == o.values; }
    }
  }

  /** One more stored parameter amounts to one more internal write, in whatever order they come. */
  lemma OverlayOneMore(d: Dictionary, m: Parameters, loc: Location, v: ObjectValue)
    requires loc !in m
    ensures Written(Overlay(d, m), loc.0, loc.1, v, false) == Overlay(d, m[loc := v])
  {
    var (i, s) := loc;
    var m' := m[loc := v];
    var a, b := Written(Overlay(d, m), i, s, v, false), Overlay(d, m');
    assert a.Keys == b.Keys;
    forall j | j in d ensures a[j] == b[j] {
      var o := d[j].obj;
      if j != i {
        OverlaySameOthers(j, o, m, loc, v);
      } else {
        OverlaySameObject(i, o, m, s, v);
      }
    }
  }

  lemma OverlaySameOthers(j: u16, o: Object, m: Parameters, loc: Location, v: ObjectValue)
    requires loc.0 != j
    ensures OverlayObject(j, o, m) == OverlayObject(j, o, m[loc := v])
  {
    if !o.Variable? {
      assert OverlayList(j, o.values, m) == OverlayList(j, o.values, m[loc := v]);
    }
  }

  /** The written object and the overlaid object agree. */
  lemma OverlaySameObject(i: u16, o: Object, m: Parameters, s: u8, v: ObjectValue)
    requires (i, s) !in m
    ensures var o1 := OverlayObject(i, o, m);
            var o2 := OverlayObject(i, o, m[(i, s) := v]);
            o2 == if Holds(o1, s) && SameType(At(o1, s), v) then PutObject(o1, s, v) else o1
  {
    var o1 := OverlayObject(i, o, m);
    var o2 := OverlayObject(i, o, m[(i, s) := v]);
    if !o.Variable? {
      if Holds(o1, s) && SameType(At(o1, s), v) {
        assert o2.values == o1.values[s - 1 := v];
      } else {
        assert o2.values == o1.values;
      }
    }
  }

  // ---- Power-on values (used by the NMT resets) ----

  function PowerOnObject(index: u16, e: ObjectEntry, stored: Parameters): Object {
    match e.obj
    case Variable(v) =>
      Variable(if (index, 0) in stored then stored[(index, 0)] else GetOr(e.defaultValue, v))
    case Array(vs) => Array(PowerOnList(index, vs, e.defaultValue, stored))
    case Record(vs) => Record(PowerOnList(index, vs, e.defaultValue, stored))
  }

  /** An element falls back on the entry's default only when the types agree. */
  function PowerOnElement(index: u16, k: nat, v: ObjectValue, fallback: Option<ObjectValue>,
                          stored: Parameters): ObjectValue {
    if (index, StoredSub(k)) in stored then stored[(index, StoredSub(k))]
    else if fallback.Some? && SameType(v, fallback.value) then fallback.value
    else v
  }

  function PowerOnList(index: u16, vs: seq<ObjectValue>, fallback: Option<ObjectValue>,
                       stored: Parameters): (r: seq<ObjectValue>)
    ensures |r| == |vs|
  {
    seq(|vs|, k requires 0 <= k < |vs| => PowerOnElement(index, k, vs[k], fallback, stored))
  }

  predicate InRange(i: u16, lo: u16, hi: u16) { lo <= i <= hi && i != 0x1003 }

  /** Power-on values in one index range, the error history excepted. */
  function PowerOn(d: Dictionary, lo: u16, hi: u16, stored: Parameters): Dictionary {
    map i | i in d :: if InRange(i, lo, hi) then d[i].(obj := PowerOnObject(i, d[i], stored)) else d[i]
  }

  /** What a reset can load: nothing when there is no backend or it fails. */
  function Loadable(storage: Option<Storage>): Parameters {
    if storage.Some? && storage.value.health.load then storage.value.saved else map[]
  }

  // ---- Protocol objects (predefined.rs) ----

  function Entry(o: Object, access: Option<AccessType>, fallback: Option<ObjectValue>): ObjectEntry {
    ObjectEntry(o, access, fallback)
  }

  function Octets32(): ObjectValue { OctetString(Zeros(32)) }

  /** Nothing of d is lost or altered in r. */
  ghost predicate Extends(d: Dictionary, r: Dictionary) {
    forall i :: i in d ==> i in r && r[i] == d[i]
  }

  function InsertedIfMissing(d: Dictionary, index: u16, entry: ObjectEntry): (r: Dictionary)
    ensures r.Keys == d.Keys + {index} && Extends(d, r)
  {
    if index in d then d else d[index := entry]
  }

  /** The mandatory protocol objects. */
  function ProtocolTable(): seq<(u16, ObjectEntry)> {
    [
      (0x1010, Entry(Record([Unsigned32(1), Unsigned32(1), Unsigned32(1)]), None, None)),
      (0x1011, Entry(Record([Unsigned32(1), Unsigned32(1), Unsigned32(1)]), None, None)),
      (0x1300, Entry(Variable(Unsigned32(15000)), Some(ReadWriteStore), Some(Unsigned32(15000)))),
      (0x1302, Entry(Variable(Unsigned32(2)), Some(ReadWriteStore), Some(Unsigned32(2)))),
      (0x0420, Entry(Record([Unsigned8(2), Unsigned8(0), Unsigned8(0)]), Some(Constant), None)),
      (0x1400, Entry(Record([Unsigned8(0), Unsigned8(0)]), None, None)),
      (0x1600, Entry(Array([]), None, None)),
      (0x1800, Entry(Record([Unsigned8(1), Unsigned8(0)]), None, None)),
      (0x1A00, Entry(Array([]), None, None)),
      (0x1C80, Entry(Variable(Octets32()), Some(ReadWrite), Some(Octets32()))),
      (0x1C81, Entry(Variable(Octets32()), Some(ReadWrite), Some(Octets32()))),
      (0x1F8C, Entry(Variable(Unsigned8(0)), Some(ReadOnly), Some(Unsigned8(0))))
    ]
  }

  /** Each listed entry is inserted only if its index is not there yet. */
  function InsertMissing(d: Dictionary, table: seq<(u16, ObjectEntry)>): (r: Dictionary)
    ensures Extends(d, r)
    ensures forall k :: 0 <= k < |table| ==> table[k].0 in r
  {
    if table == [] then d
    else
      var k := |table| - 1;
      InsertedIfMissing(InsertMissing(d, table[..k]), table[k].0, table[k].1)
  }

  function Populated(d: Dictionary): (r: Dictionary)
    ensures Extends(d, r)
  {
    InsertMissing(d, ProtocolTable())
  }

  /** An entry of the table whose index occurs once and is missing is inserted as it is. */
  lemma {:induction false} MissingIsInserted(d: Dictionary, table: seq<(u16, ObjectEntry)>, k: nat)
    requires k < |table| && table[k].0 !in d
    requires forall j :: 0 <= j < |table| && j != k ==> table[j].0 != table[k].0
    ensures table[k].0 in InsertMissing(d, table) && InsertMissing(d, table)[table[k].0] == table[k].1
  {
    var m := |table| - 1;
    if k < m {
      MissingIsInserted(d, table[..m], k);
    } else {
      OnlyTheseInserted(d, table[..m], table[k].0);
    }
  }

  lemma {:induction false} OnlyTheseInserted(d: Dictionary, table: seq<(u16, ObjectEntry)>, index: u16)
    requires index !in d && forall j :: 0 <= j < |table| ==> table[j].0 != index
    ensures index !in InsertMissing(d, table)
  {
    if table != [] { OnlyTheseInserted(d, table[..|table| - 1], index); }
  }

  /** Entry k of the protocol objects, when the firmware does not bring it. */
  lemma {:induction false} ProtocolEntry(d: Dictionary, k: nat)
    requires k < |ProtocolTable()| && ProtocolTable()[k].0 !in d
    ensures ProtocolTable()[k].0 in Populated(d) && Populated(d)[ProtocolTable()[k].0] == ProtocolTable()[k].1
  {
    IndicesOnce();
    MissingIsInserted(d, ProtocolTable(), k);
  }

  lemma {:induction false} IndicesOnce()
    ensures var t := ProtocolTable(); forall j, k :: 0 <= j < |t| && 0 <= k < |t| && j != k ==> t[j].0 != t[k].0
  {}

  /** What a boot adds for the timing of SDO connections, if the firmware does not bring it. */
  lemma {:induction false} TimingObjects(d: Dictionary)
    ensures 0x1300 !in d ==> Read(Populated(d), 0x1300, 0) == Some(Unsigned32(15000))
    ensures 0x1302 !in d ==> Read(Populated(d), 0x1302, 0) == Some(Unsigned32(2))
  {
    if 0x1300 !in d { ProtocolEntry(d, 2); }
    if 0x1302 !in d { ProtocolEntry(d, 3); }
  }

  /** The node lists for PDO errors: 32 bytes of zeros. */
  lemma {:induction false} NodeListObjects(d: Dictionary)
    ensures 0x1C80 !in d ==> Read(Populated(d), 0x1C80, 0) == Some(OctetString(seq(32, _ => 0)))
    ensures 0x1C81 !in d ==> Read(Populated(d), 0x1C81, 0) == Some(OctetString(seq(32, _ => 0)))
  {
    assert Zeros(32) == seq(32, _ => 0);
    if 0x1C80 !in d { ProtocolEntry(d, 9); }
    if 0x1C81 !in d { ProtocolEntry(d, 10); }
  }

  /** The read-only state object. */
  lemma {:induction false} StateObject(d: Dictionary)
    requires 0x1F8C !in d
    ensures 0x1F8C in Populated(d)
    ensures Populated(d)[0x1F8C] == ObjectEntry(Variable(Unsigned8(0)), Some(ReadOnly), Some(Unsigned8(0)))
  {
    ProtocolEntry(d, 11);
  }

  /** The command objects: three numbers each. */
  lemma {:induction false} CommandObjects(d: Dictionary, i: u16)
    requires (i == 0x1010 || i == 0x1011) && i !in d
    ensures i in Populated(d) && Populated(d)[i].obj == Record([Unsigned32(1), Unsigned32(1), Unsigned32(1)])
  {
    if i == 0x1010 { ProtocolEntry(d, 0); } else { ProtocolEntry(d, 1); }
  }

  /** Channel 0 of either direction: received from the managing node, sent by node 1, version 0, nothing mapped. */
  lemma {:induction false} ChannelObjects(d: Dictionary)
    ensures 0x1400 !in d ==> 0x1400 in Populated(d) && Populated(d)[0x1400].obj == Record([Unsigned8(0), Unsigned8(0)])
    ensures 0x1600 !in d ==> 0x1600 in Populated(d) && Populated(d)[0x1600].obj == Array([])
    ensures 0x1800 !in d ==> 0x1800 in Populated(d) && Populated(d)[0x1800].obj == Record([Unsigned8(1), Unsigned8(0)])
    ensures 0x1A00 !in d ==> 0x1A00 in Populated(d) && Populated(d)[0x1A00].obj == Array([])
  {
    if 0x1400 !in d { ProtocolEntry(d, 5); }
    if 0x1600 !in d { ProtocolEntry(d, 6); }
    if 0x1800 !in d { ProtocolEntry(d, 7); }
    if 0x1A00 !in d { ProtocolEntry(d, 8); }
  }

  /** The constant record type of channel parameters; its count is an element, so it reads under 1 and 3 under 0. */
  lemma {:induction false} ParameterObject(d: Dictionary)
    requires 0x0420 !in d
    ensures 0x0420 in Populated(d)
    ensures Populated(d)[0x0420].obj == Record([Unsigned8(2), Unsigned8(0), Unsigned8(0)])
    ensures Populated(d)[0x0420].access == Some(Constant)
    ensures Read(Populated(d), 0x0420, 0) == Some(Unsigned8(3)) && Read(Populated(d), 0x0420, 1) == Some(Unsigned8(2))
  {
    ProtocolEntry(d, 4);
  }
}
