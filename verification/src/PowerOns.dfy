/**
 * What every location of the dictionary holds after a reset
 * (crates/powerlink-rs/src/od/mod.rs:249-300, nmt/state_machine.rs:46-121).
 */
module PowerOns {
  import opened Wrappers
  import opened Bytes
  import opened ObjectValues
  import opened Entries
  import opened Persistence
  import opened ObjectDictionaries
  import opened NmtStates
  import opened NmtMachines

  /**
   * The power-on value of a location: the stored parameter if there is one, else the default of its
   * entry, which an element takes only if the types agree, else the present value.
   */
  function PowerOnValue(d: Dictionary, stored: Parameters, i: u16, s: u8): ObjectValue
    requires HasLocation(d, i, s)
  {
    var present, fallback := Value(d, i, s), d[i].defaultValue;
    if (i, s) in stored then stored[(i, s)]
    else if fallback.Some? && (d[i].obj.Variable? || SameType(present, fallback.value)) then fallback.value
    else present
  }

  /** The indices that a reset restores. */
  predicate IsRestored(e: NmtEvent, i: u16) {
    && i != 0x1003
    && match e
       case Reset => 0x1000 <= i <= 0x9FFF
       case SwReset => 0x1000 <= i <= 0x9FFF
       case ResetNode => 0x1000 <= i <= 0x9FFF
       case ResetCommunication => 0x1000 <= i <= 0x1FFF
       case _ => false
  }

  lemma {:induction false} ObjectAtPowerOn(d: Dictionary, stored: Parameters, i: u16, s: u8)
    requires HasLocation(d, i, s)
    ensures Holds(PowerOnObject(i, d[i], stored), s)
    ensures At(PowerOnObject(i, d[i], stored), s) == PowerOnValue(d, stored, i, s)
  {
    if !d[i].obj.Variable? { assert StoredSub(s - 1) == s; }
  }

  /** Restoring a range gives each location in it, the error history excepted, its power-on value; the rest stays. */
  lemma {:induction false} RangeValues(d: Dictionary, lo: u16, hi: u16, stored: Parameters, i: u16, s: u8)
    requires HasLocation(d, i, s)
    ensures var d' := PowerOn(d, lo, hi, stored);
            && d'.Keys == d.Keys && HasLocation(d', i, s)
            && if lo <= i <= hi && i != 0x1003 then Value(d', i, s) == PowerOnValue(d, stored, i, s)
               else d'[i] == d[i]
  {
    ObjectAtPowerOn(d, stored, i, s);
  }

  /**
   * After a reset every location that it covers holds its power-on value and every other one its old
   * value, with one exception: a UNSIGNED8 variable at 0x1F8C holds the code of NotActive.
   */
  lemma {:induction false} ResetValues(d: Dictionary, e: NmtEvent, stored: Parameters, i: u16, s: u8)
    requires IsReset(e) && HasLocation(d, i, s)
    ensures var d' := ResetResult(d, e, stored);
            && d'.Keys == d.Keys && HasLocation(d', i, s)
            && d'[i].access == d[i].access && d'[i].defaultValue == d[i].defaultValue
            && var v := if IsRestored(e, i) then PowerOnValue(d, stored, i, s) else Value(d, i, s);
               Value(d', i, s) == if i == 0x1F8C && d[i].obj.Variable? && v.Unsigned8? then Unsigned8(0x1C) else v
  {
    ResetPointwise(d, e, stored, i);
    ObjectAtPowerOn(d, stored, i, s);
  }

  /** In a running node the stored parameters are those of the storage, if there is one and it can be read. */
  lemma {:induction false} StepValues(role: Role, state: NmtState, od: OdState, e: NmtEvent, i: u16, s: u8)
    requires IsReset(e) && HasLocation(od.entries, i, s) && i != 0x1F8C
    ensures var d' := StepOd(role, state, od, e).entries;
            var stored :=
              if od.storage.Some? && od.storage.value.health.load then od.storage.value.saved else map[];
            && HasLocation(d', i, s) && StepOd(role, state, od, e).storage == od.storage
            && Value(d', i, s)
               == if IsRestored(e, i) then PowerOnValue(od.entries, stored, i, s) else Value(od.entries, i, s)
  {
    ResetValues(od.entries, e, Loadable(od.storage), i, s);
  }

  /** A variable with a default and nothing stored has the default after a reset of the node. */
  lemma {:induction false} DefaultIsRestored(d: Dictionary, i: u16, v: ObjectValue)
    requires 0x2000 <= i <= 0x9FFF && i in d && d[i].obj.Variable? && d[i].defaultValue == Some(v)
    ensures var d' := ResetResult(d, ResetNode, map[]); HasLocation(d', i, 0) && Value(d', i, 0) == v
  {
    ResetValues(d, ResetNode, map[], i, 0);
  }
}
