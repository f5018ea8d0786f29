/** Stored parameters over writes and reboots: what a boot brings back. */
module Boots {
  import opened Wrappers
  import opened Bytes
  import opened ObjectValues
  import opened Entries
  import opened Persistence
  import opened ObjectDictionaries

  datatype WriteRequest = WriteRequest(index: u16, sub: u8, value: ObjectValue)

  /** Public writes one after the other, whether they succeed or not. */
  function RunWrites(od: OdState, ws: seq<WriteRequest>): OdState {
    if ws == [] then od
    else
      var w := ws[|ws| - 1];
      WriteSpec(RunWrites(od, ws[..|ws| - 1]), w.index, w.sub, w.value).1
  }

  lemma {:induction false} WriteKeepsShape(od: OdState, w: WriteRequest)
    ensures SameShape(od.entries, WriteSpec(od, w.index, w.sub, w.value).1.entries)
  {
    WriteCases(od, w.index, w.sub, w.value);
    WriteExact(od.entries, w.index, w.sub, w.value, true);
    SameShapeEquivalence(od.entries, od.entries, od.entries);
  }

  /** A public write keeps the shape, and touches the storage only through a command object. */
  lemma {:induction false} WriteKeeps(od: OdState, w: WriteRequest)
    ensures SameShape(od.entries, WriteSpec(od, w.index, w.sub, w.value).1.entries)
    ensures IsCommandIndex(w.index) ==> WriteSpec(od, w.index, w.sub, w.value).1.entries == od.entries
    ensures !IsCommandIndex(w.index) ==> WriteSpec(od, w.index, w.sub, w.value).1.storage == od.storage
  {
    WriteKeepsShape(od, w);
    WriteCases(od, w.index, w.sub, w.value);
  }

  lemma {:induction false} WritesKeep(od: OdState, ws: seq<WriteRequest>)
    ensures SameShape(od.entries, RunWrites(od, ws).entries)
    ensures (forall k :: 0 <= k < |ws| ==> !IsCommandIndex(ws[k].index)) ==> RunWrites(od, ws).storage == od.storage
  {
    SameShapeEquivalence(od.entries, od.entries, od.entries);
    if ws != [] {
      var before := RunWrites(od, ws[..|ws| - 1]);
      WritesKeep(od, ws[..|ws| - 1]);
      WriteKeeps(before, ws[|ws| - 1]);
      SameShapeEquivalence(od.entries, before.entries, RunWrites(od, ws).entries);
    }
  }

  /** The arrays and records that a save covers have at most 256 elements. */
  ghost predicate StorableListsFit(d: Dictionary) {
    forall i :: i in d && IsStorable(d[i]) && !d[i].obj.Variable? ==> |d[i].obj.values| <= 0x100
  }

  /** The indices that a save of a list covers: all, communication profile, or device profile. */
  predicate Covers(list: u8, i: u16) {
    list == 1 || (list == 2 && 0x1000 <= i <= 0x1FFF) || (list == 3 && 0x6000 <= i <= 0x9FFF)
  }

  /** A save of a list keeps the values of an entry: it is covered and has one of the two storing access types. */
  predicate IsKept(list: u8, i: u16, e: ObjectEntry) {
    Covers(list, i) && (e.access == Some(ReadWriteStore) || e.access == Some(WriteOnlyStore))
  }

  /** What a save holds for a readable location. */
  lemma SavedLocation(d: Dictionary, list: u8, i: u16, s: u8)
    requires StorableListsFit(d) && HasLocation(d, i, s)
    ensures (i, s) in SavedParameters(d, list) <==> IsKept(list, i, d[i])
    ensures (i, s) in SavedParameters(d, list) ==> SavedParameters(d, list)[(i, s)] == Value(d, i, s)
  {
    if IsStorable(d[i]) && InSaveGroup(list, i) {
      if d[i].obj.Variable? {
        assert (i, s) in EntryParameters(i, d[i], list);
      } else {
        SavedElement(i, d[i].obj.values, s - 1);
        assert StoredSub(s - 1) == s;
        assert (i, s) in EntryParameters(i, d[i], list);
      }
    }
  }

  /** Objects at an index that both have are both variables or both lists. */
  ghost predicate SameKinds(a: Dictionary, b: Dictionary) {
    forall i :: i in a && i in b ==> a[i].obj.Variable? == b[i].obj.Variable?
  }

  /** The sub-indices under which a list of at most 256 elements is saved. */
  lemma {:induction false} ListSubs(index: u16, values: seq<ObjectValue>, s: u8)
    requires |values| <= 0x100 && (index, s) in ListParameters(index, values)
    ensures s <= |values| && (s == 0 ==> |values| == 0x100)
  {
    var k := |values| - 1;
    if s != StoredSub(k) { ListSubs(index, values[..k], s); }
  }

  /** A save holds nothing for a location of the same kind that the dictionary does not have. */
  lemma {:induction false} NotSaved(d: Dictionary, list: u8, base: Dictionary, i: u16, s: u8)
    requires StorableListsFit(d) && SameKinds(d, base) && HasLocation(base, i, s) && !HasLocation(d, i, s)
    ensures (i, s) !in SavedParameters(d, list)
  {
    if i in d && !d[i].obj.Variable? && (i, s) in EntryParameters(i, d[i], list) {
      ListSubs(i, d[i].obj.values, s);
    }
  }

  /** The value that a save keeps for a location and a firmware of the same type takes back. */
  ghost predicate TakenBack(d: Dictionary, list: u8, base: Dictionary, i: u16, s: u8)
    requires HasLocation(base, i, s)
  {
    && HasLocation(d, i, s) && IsKept(list, i, d[i])
    && SameType(Value(base, i, s), Value(d, i, s))
  }

  /**
   * d' is base, but for the locations that d has with the same type, storable and in a saved
   * group: those have the values of d.
   */
  ghost predicate Restored(d: Dictionary, list: u8, base: Dictionary, d': Dictionary) {
    && SameShape(base, d')
    && forall i: u16, s: u8 :: HasLocation(base, i, s) ==>
         && HasLocation(d', i, s)
         && Value(d', i, s) == if TakenBack(d, list, base, i, s) then Value(d, i, s) else Value(base, i, s)
  }

  lemma {:induction false} OverlayAt(d: Dictionary, list: u8, base: Dictionary, i: u16, s: u8)
    requires StorableListsFit(d) && SameKinds(d, base) && HasLocation(base, i, s)
    ensures OverlayValue(i, s, Value(base, i, s), SavedParameters(d, list))
         == if TakenBack(d, list, base, i, s) then Value(d, i, s) else Value(base, i, s)
  {
    if HasLocation(d, i, s) { SavedLocation(d, list, i, s); } else { NotSaved(d, list, base, i, s); }
  }

  lemma {:induction false} OverlayRestores(d: Dictionary, list: u8, base: Dictionary)
    requires StorableListsFit(d) && SameKinds(d, base)
    ensures Restored(d, list, base, Overlay(base, SavedParameters(d, list)))
  {
    OverlayExact(base, SavedParameters(d, list));
    forall i: u16, s: u8 | HasLocation(base, i, s)
      ensures OverlayValue(i, s, Value(base, i, s), SavedParameters(d, list))
           == if TakenBack(d, list, base, i, s) then Value(d, i, s) else Value(base, i, s)
    {
      OverlayAt(d, list, base, i, s);
    }
  }

  /** The dictionary that boots after a save and some more writes. */
  function BootAfterSave(od: OdState, list: u8, ws: seq<WriteRequest>, firmware: Dictionary)
    : (Result<(), Error>, OdState)
  {
    var saved := WriteSpec(od, 0x1010, list, VisibleString(SaveText())).1;
    InitSpec(OdState(firmware, RunWrites(saved, ws).storage))
  }

  /**
   * A save, then any public writes that are not storage commands, then a boot of any firmware with
   * the same kinds of objects: each storable location of the saved group that the firmware has with the
   * same type has its value from the moment of the save, every other location its firmware or protocol value.
   * Lists may have another length, as the error history has after an error.
   */
  lemma {:induction false} SaveThenBoot(od: OdState, list: u8, ws: seq<WriteRequest>, firmware: Dictionary)
    requires list > 0 && od.storage.Some? && od.storage.value.health.save && od.storage.value.health.load
    requires !od.storage.value.restoreRequested && StorableListsFit(od.entries)
    requires forall k :: 0 <= k < |ws| ==> !IsCommandIndex(ws[k].index)
    requires SameKinds(od.entries, Populated(firmware))
    ensures BootAfterSave(od, list, ws, firmware).0.Ok?
    ensures Restored(od.entries, list, Populated(firmware), BootAfterSave(od, list, ws, firmware).1.entries)
  {
    var od1 := WriteSpec(od, 0x1010, list, VisibleString(SaveText())).1;
    assert od1.storage == Some(od.storage.value.(saved := SavedParameters(od.entries, list)));
    WritesKeep(od1, ws);
    OverlayRestores(od.entries, list, Populated(firmware));
  }

  // ---- Restore defaults ----

  /** One power cycle: the firmware that boots, what the backend can do, and the public writes until the next one. */
  datatype Boot = Boot(firmware: Dictionary, health: Health, writes: seq<WriteRequest>)

  /** The dictionary and storage right after a boot. */
  function Booted(storage: Storage, b: Boot): OdState {
    InitSpec(OdState(b.firmware, Some(storage.(health := b.health)))).1
  }

  /** What the storage holds when the next boot begins. */
  function StorageAfter(storage: Storage, b: Boot): Storage {
    match RunWrites(Booted(storage, b), b.writes).storage
    case Some(st) => st
    case None => storage
  }

  /** The storage after a sequence of power cycles. */
  function RunBoots(storage: Storage, boots: seq<Boot>): Storage {
    if boots == [] then storage
    else StorageAfter(RunBoots(storage, boots[..|boots| - 1]), boots[|boots| - 1])
  }

  /** A boot now would come up with the defaults. */
  predicate YieldsDefaults(st: Storage) { st.restoreRequested || st.saved == map[] }

  /** Either the boot leaves the request pending, or nothing is saved before the next one. */
  ghost predicate NoSaveOnceCleared(storage: Storage, b: Boot) {
    || (Booted(storage, b).storage.Some? && Booted(storage, b).storage.value.restoreRequested)
    || forall k :: 0 <= k < |b.writes| ==> b.writes[k].index != 0x1010
  }

  lemma {:induction false} BootYieldsDefaults(st: Storage, b: Boot)
    requires YieldsDefaults(st)
    ensures Booted(st, b).entries == Populated(b.firmware)
    ensures Booted(st, b).storage.Some? && YieldsDefaults(Booted(st, b).storage.value)
  {
    OverlayNothing(Populated(b.firmware));
  }

  /** A public write keeps a pending request, and without a save command it stores nothing. */
  lemma {:induction false} WriteOnRequest(od: OdState, w: WriteRequest)
    requires od.storage.Some?
    ensures var od' := WriteSpec(od, w.index, w.sub, w.value).1;
            && od'.storage.Some?
            && (od.storage.value.restoreRequested ==> od'.storage.value.restoreRequested)
            && (w.index != 0x1010 ==> od'.storage.value.saved == od.storage.value.saved)
  {
    WriteCases(od, w.index, w.sub, w.value);
  }

  lemma {:induction false} WritesOnRequest(od: OdState, ws: seq<WriteRequest>)
    requires od.storage.Some?
    ensures var od' := RunWrites(od, ws);
            && od'.storage.Some?
            && (od.storage.value.restoreRequested ==> od'.storage.value.restoreRequested)
            && ((forall k :: 0 <= k < |ws| ==> ws[k].index != 0x1010) ==>
                od'.storage.value.saved == od.storage.value.saved)
  {
    if ws != [] {
      WritesOnRequest(od, ws[..|ws| - 1]);
      WriteOnRequest(RunWrites(od, ws[..|ws| - 1]), ws[|ws| - 1]);
    }
  }

  lemma {:induction false} CycleYieldsDefaults(st: Storage, b: Boot)
    requires YieldsDefaults(st) && NoSaveOnceCleared(st, b)
    ensures YieldsDefaults(StorageAfter(st, b))
  {
    BootYieldsDefaults(st, b);
    WritesOnRequest(Booted(st, b), b.writes);
  }

  /**
   * Once restoring the defaults has been requested, every later boot comes up with the pure firmware
   * and protocol defaults, however often the backend fails to clear itself and whatever is written
   * between the boots, saves included while the request is pending. Only a save after the backend has been
   * cleared ends this, and the request is dropped only together with the stored parameters.
   */
  lemma {:induction false} DefaultsAfterRequest(storage: Storage, boots: seq<Boot>, b: Boot)
    requires YieldsDefaults(storage)
    requires forall k :: 0 <= k < |boots| ==> NoSaveOnceCleared(RunBoots(storage, boots[..k]), boots[k])
    ensures YieldsDefaults(RunBoots(storage, boots))
    ensures Booted(RunBoots(storage, boots), b).entries == Populated(b.firmware)
  {
    if boots != [] {
      var m := |boots| - 1;
      forall k | 0 <= k < m ensures NoSaveOnceCleared(RunBoots(storage, boots[..m][..k]), boots[..m][k]) {
        assert boots[..m][..k] == boots[..k];
      }
      DefaultsAfterRequest(storage, boots[..m], boots[m]);
      CycleYieldsDefaults(RunBoots(storage, boots[..m]), boots[m]);
    }
    BootYieldsDefaults(RunBoots(storage, boots), b);
  }

  /** Writing the restore command sets the request up, and a healthy boot completes it. */
  lemma RestoreThenBoot(od: OdState, sub: u8, firmware: Dictionary)
    requires sub > 0 && od.storage.Some?
    requires var h := od.storage.value.health; h.request && h.clear && h.clearFlag
    ensures var (r, od1) := WriteSpec(od, 0x1011, sub, VisibleString(LoadText()));
            var (booted, od2) := InitSpec(OdState(firmware, od1.storage));
            && r.Ok? && booted.Ok? && od1.entries == od.entries
            && od2.entries == Populated(firmware)
            && od2.storage == Some(od.storage.value.(saved := map[], restoreRequested := false))
  {}

  /** If clearing fails, nothing is lost: the request is still pending and the parameters are still there. */
  lemma FailedClearIsRetried(firmware: Dictionary, st: Storage)
    requires st.restoreRequested && !st.health.clear
    ensures var (r, od) := InitSpec(OdState(firmware, Some(st)));
            r.Err? && od.storage == Some(st)
  {}

  /**
   * What one boot leaves in the backend, whatever fails: the parameters go exactly with a requested clear
   * that succeeds, and the request only when its own clearing succeeds as well, so that after a half-done
   * clear the next boot tries again. A failure is reported exactly when a step that was due fails.
   */
  lemma {:induction false} BackendAfterBoot(firmware: Dictionary, st: Storage)
    ensures var (r, od) := InitSpec(OdState(firmware, Some(st)));
            && od.storage.Some? && od.storage.value.health == st.health
            && od.storage.value.saved == (if st.restoreRequested && st.health.clear then map[] else st.saved)
            && od.storage.value.restoreRequested == (st.restoreRequested && !(st.health.clear && st.health.clearFlag))
            && (r.Ok? <==> if st.restoreRequested then st.health.clear && st.health.clearFlag else st.health.load)
            && (r.Err? || st.restoreRequested ==> od.entries == Populated(firmware))
  {}
}
