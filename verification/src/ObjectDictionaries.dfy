/**
 * The object dictionary with its storage backend: the operations of
 * crates/powerlink-rs/src/od/mod.rs, commands.rs, storage.rs and error_history.rs.
 *
 * The backend is borrowed exclusively by the dictionary in the source, so it is a value here.
 */
module ObjectDictionaries {
  import opened Wrappers
  import opened Bytes
  import opened ObjectValues
  import opened Entries
  import opened Persistence
  import PdoMapping
  import Utf8

  datatype OdState = OdState(entries: Dictionary, storage: Option<Storage>)

  const SAVE: seq<u8> := [0x73, 0x61, 0x76, 0x65]
  const LOAD: seq<u8> := [0x6C, 0x6F, 0x61, 0x64]
  const MAX_HISTORY_ENTRIES: nat := 254

  lemma {:induction false} AsciiIsText(s: seq<u8>)
    requires forall k :: 0 <= k < |s| ==> s[k] < 0x80
    ensures Utf8.Valid(s)
  {
    if s != [] { AsciiIsText(s[1..]); }
  }

  function SaveText(): Text { AsciiIsText(SAVE); SAVE }
  function LoadText(): Text { AsciiIsText(LOAD); LOAD }

  // ---- Specification functions ----

  function StoreSpec(od: OdState, list: u8): (Result<(), Error>, OdState) {
    if list == 0 then (Err(StorageError(SubIndexZero)), od)
    else
      match od.storage
      case None => (Err(StorageError(NoBackend)), od)
      case Some(st) =>
        if st.health.save then
          (Ok(()), od.(storage := Some(st.(saved := SavedParameters(od.entries, list)))))
        else (Err(StorageError(BackendFailure)), od)
  }

  function RestoreSpec(od: OdState, list: u8): (Result<(), Error>, OdState) {
    if list == 0 then (Err(StorageError(SubIndexZero)), od)
    else
      match od.storage
      case None => (Err(StorageError(NoBackend)), od)
      case Some(st) =>
        if st.health.request then (Ok(()), od.(storage := Some(st.(restoreRequested := true))))
        else (Err(StorageError(BackendFailure)), od)
  }

  predicate IsCommandIndex(index: u16) { index == 0x1010 || index == 0x1011 }

  /** The public write: command objects, mapping validation, then the checked internal write. */
  function WriteSpec(od: OdState, index: u16, sub: u8, v: ObjectValue): (Result<(), Error>, OdState) {
    if index == 0x1010 then
      if v == VisibleString(SaveText()) && sub > 0 then StoreSpec(od, sub) else (Err(StorageError(BadSignature)), od)
    else if index == 0x1011 then
      if v == VisibleString(LoadText()) && sub > 0 then RestoreSpec(od, sub) else (Err(StorageError(BadSignature)), od)
    else if sub == 0 && IsMappingIndex(index) && !v.Unsigned8? then (Err(TypeMismatch), od)
    else if sub == 0 && IsMappingIndex(index) && PdoMapping.Validation(od.entries, index, v.uint8).Err? then
      (PdoMapping.Validation(od.entries, index, v.uint8), od)
    else
      (WriteOutcome(od.entries, index, sub, v, true), od.(entries := Written(od.entries, index, sub, v, true)))
  }

  /** The four things a public write can do. */
  lemma WriteCases(od: OdState, index: u16, sub: u8, v: ObjectValue)
    ensures var od' := WriteSpec(od, index, sub, v).1;
            || od' == od
            || (!IsCommandIndex(index) && od' == od.(entries := Written(od.entries, index, sub, v, true)))
            || (index == 0x1010 && od' == StoreSpec(od, sub).1)
            || (index == 0x1011 && od' == RestoreSpec(od, sub).1)
  {}

  /** Boot: protocol objects, then either a pending restore or the stored parameters. */
  function InitSpec(od: OdState): (Result<(), Error>, OdState) {
    var base := od.(entries := Populated(od.entries));
    match od.storage
    case None => (Ok(()), base)
    case Some(st) =>
      if st.restoreRequested then
        if !st.health.clear then (Err(StorageError(BackendFailure)), base)
        else if !st.health.clearFlag then
          (Err(StorageError(BackendFailure)), base.(storage := Some(st.(saved := map[]))))
        else (Ok(()), base.(storage := Some(st.(saved := map[], restoreRequested := false))))
      else if !st.health.load then (Err(StorageError(BackendFailure)), base)
      else (Ok(()), base.(entries := Overlay(base.entries, st.saved)))
  }

  /** A new error goes to the front of 0x1003; one element is dropped when there are too many. */
  function LoggedList(values: seq<ObjectValue>, record: seq<u8>): seq<ObjectValue> {
    var longer := [Domain(record)] + values;
    if |longer| > MAX_HISTORY_ENTRIES then longer[..|longer| - 1] else longer
  }

  function Logged(d: Dictionary, record: seq<u8>): Dictionary {
    if 0x1003 in d && d[0x1003].obj.Array? then
      d[0x1003 := d[0x1003].(obj := Array(LoggedList(d[0x1003].obj.values, record)))]
    else d
  }

  // ---- The class ----

  class ObjectDictionary {
    var entries: Dictionary
    var storage: Option<Storage>

    ghost function State(): OdState
      reads this
    {
      OdState(entries, storage)
    }

    constructor (storage: Option<Storage>)
      ensures State() == OdState(map[], storage)
    {
      this.entries := map[];
      this.storage := storage;
    }

    method Insert(index: u16, entry: ObjectEntry)
      modifies this
      ensures State() == old(State()).(entries := old(entries)[index := entry])
    {
      entries := entries[index := entry];
    }

    method WriteInternal(index: u16, sub: u8, v: ObjectValue, checkAccess: bool) returns (r: Result<(), Error>)
      modifies this
      ensures r == WriteOutcome(old(entries), index, sub, v, checkAccess)
      ensures State() == old(State()).(entries := Written(old(entries), index, sub, v, checkAccess))
    {
      if index !in entries {
        return Err(ObjectNotFound);
      }
      var entry := entries[index];
      if checkAccess && (entry.access == Some(ReadOnly) || entry.access == Some(Constant)) {
        return Err(StorageError(ReadOnlyObject));
      }
      match entry.obj {
        case Variable(current) =>
          if sub != 0 { return Err(SubObjectNotFound); }
          if !SameType(current, v) { return Err(TypeMismatch); }
          entries := entries[index := entry.(obj := Variable(v))];
        case _ =>
          var values := entry.obj.values;
          if sub == 0 {
            if !IsMappingIndex(index) { return Err(StorageError(CountNotWritable)); }
            if !v.Unsigned8? { return Err(TypeMismatch); }
          } else if sub <= |values| {
            if !SameType(values[sub - 1], v) { return Err(TypeMismatch); }
            entries := entries[index := entry.(obj := entry.obj.(values := values[sub - 1 := v]))];
          } else {
            return Err(SubObjectNotFound);
          }
      }
      return Ok(());
    }

    method Write(index: u16, sub: u8, v: ObjectValue) returns (r: Result<(), Error>)
      modifies this
      ensures (r, State()) == WriteSpec(old(State()), index, sub, v)
    {
      if index == 0x1010 {
        if v.VisibleString? && sub > 0 && v.text == SAVE {
          r := StoreParameters(sub);
          return;
        }
        return Err(StorageError(BadSignature));
      }
      if index == 0x1011 {
        if v.VisibleString? && sub > 0 && v.text == LOAD {
          r := RestoreDefaults(sub);
          return;
        }
        return Err(StorageError(BadSignature));
      }
      if sub == 0 && IsMappingIndex(index) {
        if !v.Unsigned8? {
          return Err(TypeMismatch);
        }
        var valid := PdoMapping.ValidatePdoMapping(entries, index, v.uint8);
        if valid.Err? {
          return valid;
        }
      }
      r := WriteInternal(index, sub, v, true);
    }

    method StoreParameters(list: u8) returns (r: Result<(), Error>)
      modifies this
      ensures (r, State()) == StoreSpec(old(State()), list)
    {
      if list == 0 {
        return Err(StorageError(SubIndexZero));
      }
      if storage.None? {
        return Err(StorageError(NoBackend));
      }
      var parameters: Parameters := map[];
      var todo := entries.Keys;
      while todo != {}
        invariant todo <= entries.Keys
        invariant State() == old(State())
        invariant Collects(entries, list, entries.Keys - todo, parameters)
        decreases |todo|
      {
        var index :| index in todo;
        var entry := entries[index];
        ghost var before := parameters;
        if InSaveGroup(list, index) && IsStorable(entry) {
          parameters := CollectEntry(index, entry.obj, parameters);
        }
        CollectsOneMore(entries, list, entries.Keys - todo, before, index);
        todo := todo - {index};
        assert entries.Keys - todo == (entries.Keys - (todo + {index})) + {index};
      }
      CollectsAll(entries, list, parameters);
      if !storage.value.health.save {
        return Err(StorageError(BackendFailure));
      }
      storage := Some(storage.value.(saved := parameters));
      return Ok(());
    }

    /** Adds the values of one object to a parameter map. */
    method CollectEntry(index: u16, o: Object, m: Parameters) returns (m': Parameters)
      ensures m' == m + ObjectParameters(index, o)
    {
      m' := m;
      if o.Variable? {
        m' := m'[(index, 0) := o.value];
      } else {
        var values := o.values;
        assert values[..0] == [];
        for k := 0 to |values|
          invariant m' == m + ListParameters(index, values[..k])
        {
          m' := m'[(index, StoredSub(k)) := values[k]];
          assert values[..k + 1][..k] == values[..k];
        }
        assert values[..|values|] == values;
      }
    }

    method RestoreDefaults(list: u8) returns (r: Result<(), Error>)
      modifies this
      ensures (r, State()) == RestoreSpec(old(State()), list)
    {
      if list == 0 {
        return Err(StorageError(SubIndexZero));
      }
      if storage.None? {
        return Err(StorageError(NoBackend));
      }
      if !storage.value.health.request {
        return Err(StorageError(BackendFailure));
      }
      storage := Some(storage.value.(restoreRequested := true));
      return Ok(());
    }

    method RestorePowerOnValues(lo: u16, hi: u16)
      modifies this
      ensures State() == old(State()).(entries := PowerOn(old(entries), lo, hi, Loadable(old(storage))))
    {
      var stored := if storage.Some? && storage.value.health.load then storage.value.saved else map[];
      ghost var goal := PowerOn(entries, lo, hi, stored);
      var todo := entries.Keys;
      while todo != {}
        invariant todo <= entries.Keys == old(entries).Keys
        invariant storage == old(storage)
        invariant forall i :: i in entries ==> entries[i] == if i in todo then old(entries)[i] else goal[i]
        decreases |todo|
      {
        var index :| index in todo;
        todo := todo - {index};
        if lo <= index <= hi && index != 0x1003 {
          var entry := entries[index];
          var o := PowerOnEntry(index, entry, stored);
          entries := entries[index := entry.(obj := o)];
        }
      }
      assert entries == goal;
    }

    method PowerOnEntry(index: u16, e: ObjectEntry, stored: Parameters) returns (o: Object)
      ensures o == PowerOnObject(index, e, stored)
    {
      o := e.obj;
      match e.obj {
        case Variable(v) =>
          if (index, 0) in stored {
            o := Variable(stored[(index, 0)]);
          } else if e.defaultValue.Some? {
            o := Variable(e.defaultValue.value);
          }
        case _ =>
          var values := e.obj.values;
          for k := 0 to |values|
            invariant |values| == |e.obj.values|
            invariant forall j :: 0 <= j < |values| ==>
              values[j] == if j < k then PowerOnElement(index, j, e.obj.values[j], e.defaultValue, stored)
                           else e.obj.values[j]
          {
            if (index, StoredSub(k)) in stored {
              values := values[k := stored[(index, StoredSub(k))]];
            } else if e.defaultValue.Some? {
              if SameType(values[k], e.defaultValue.value) {
                values := values[k := e.defaultValue.value];
              }
            }
          }
          assert values == PowerOnList(index, e.obj.values, e.defaultValue, stored);
          o := e.obj.(values := values);
      }
    }

    method InsertIfMissing(index: u16, entry: ObjectEntry)
      modifies this
      ensures State() == old(State()).(entries := InsertedIfMissing(old(entries), index, entry))
    {
      if index !in entries {
        Insert(index, entry);
      }
    }

    method PopulateProtocolObjects()
      modifies this
      ensures State() == old(State()).(entries := Populated(old(entries)))
    {
      var table := ProtocolTable();
      assert table[..0] == [];
      for k := 0 to |table|
        invariant State() == old(State()).(entries := InsertMissing(old(entries), table[..k]))
      {
        InsertIfMissing(table[k].0, table[k].1);
        assert table[..k + 1][..k] == table[..k];
      }
      assert table[..|table|] == table;
    }

    method Init() returns (r: Result<(), Error>)
      modifies this
      ensures (r, State()) == InitSpec(old(State()))
    {
      PopulateProtocolObjects();
      if storage.Some? {
        if storage.value.restoreRequested {
          if !storage.value.health.clear {
            return Err(StorageError(BackendFailure));
          }
          storage := Some(storage.value.(saved := map[]));
          if !storage.value.health.clearFlag {
            return Err(StorageError(BackendFailure));
          }
          storage := Some(storage.value.(restoreRequested := false));
        } else {
          if !storage.value.health.load {
            return Err(StorageError(BackendFailure));
          }
          ApplyStored(storage.value.saved);
        }
      }
      return Ok(());
    }

    /** Internal writes of all stored parameters, in any order; failed ones are skipped. */
    method ApplyStored(stored: Parameters)
      modifies this
      ensures State() == old(State()).(entries := Overlay(old(entries), stored))
    {
      ghost var base := entries;
      ghost var done: Parameters := map[];
      var todo := stored.Keys;
      OverlayNothing(base);
      while todo != {}
        invariant todo <= stored.Keys
        invariant done.Keys == stored.Keys - todo && forall loc :: loc in done ==> done[loc] == stored[loc]
        invariant entries == Overlay(base, done) && storage == old(storage)
        decreases |todo|
      {
        var loc :| loc in todo;
        var outcome := WriteInternal(loc.0, loc.1, stored[loc], false);
        OverlayOneMore(base, done, loc, stored[loc]);
        todo := todo - {loc};
        done := done[loc := stored[loc]];
      }
      assert done == stored;
    }

    method WriteErrorToHistory(record: seq<u8>)
      modifies this
      ensures State() == old(State()).(entries := Logged(old(entries), record))
    {
      if 0x1003 in entries {
        var entry := entries[0x1003];
        if entry.obj.Array? {
          var values := [Domain(record)] + entry.obj.values;
          if |values| > MAX_HISTORY_ENTRIES {
            values := values[..|values| - 1];
          }
          entries := entries[0x1003 := entry.(obj := Array(values))];
        }
      }
    }
  }

  lemma CollectsOneMore(d: Dictionary, list: u8, done: set<u16>, m: Parameters, index: u16)
    requires done <= d.Keys && index in d && index !in done && Collects(d, list, done, m)
    ensures Collects(d, list, done + {index}, m + EntryParameters(index, d[index], list))
  {
    EntryParametersKeys(index, d[index], list);
  }

  lemma CollectsAll(d: Dictionary, list: u8, m: Parameters)
    requires Collects(d, list, d.Keys, m)
    ensures m == SavedParameters(d, list)
  {
    var all := SavedParameters(d, list);
    forall loc: Location ensures loc in m <==> loc in all {
      var (i, s) := loc;
      assert (i, s) in m <==> i in d && (i, s) in EntryParameters(i, d[i], list);
    }
    forall loc: Location | loc in m ensures m[loc] == all[loc] {
      var (i, s) := loc;
      assert (i, s) in m;
    }
  }
}
