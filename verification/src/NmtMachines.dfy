/**
 * The NMT state machines of controlled and managing nodes and the resets they share
 * (crates/powerlink-rs/src/nmt/state_machine.rs, cn_state_machine.rs, mn_state_machine.rs).
 */
module NmtMachines {
  import opened Wrappers
  import opened Bytes
  import opened ObjectValues
  import opened Entries
  import opened Persistence
  import opened ObjectDictionaries
  import opened NmtStates

  datatype Role = Controlled | Managing(startupFlags: u32)

  /** Bit 13 of NMT_StartUp_U32: boot into BasicEthernet. */
  predicate StartsInBasicEthernet(flags: u32) { (flags / 0x2000) % 2 == 1 }

  /** The transition of a controlled node on an event that is not a reset; None where there is none. */
  function CnTransition(s: NmtState, e: NmtEvent): Option<NmtState> {
    match (s, e)
    case (NotActive, SocReceived) => Some(PreOperational1)
    case (NotActive, SocSoAReceived) => Some(PreOperational1)
    case (NotActive, Timeout) => Some(BasicEthernet)
    case (PreOperational1, SocReceived) => Some(PreOperational2)
    case (PreOperational2, EnableReadyToOperate) => Some(PreOperational2)
    case (PreOperational2, CnConfigurationComplete) => Some(ReadyToOperate)
    case (ReadyToOperate, StartNode) => Some(Operational)
    case (PreOperational2, StopNode) => Some(CsStopped)
    case (ReadyToOperate, StopNode) => Some(CsStopped)
    case (Operational, StopNode) => Some(CsStopped)
    case (Operational, EnterPreOperational2) => Some(PreOperational2)
    case (CsStopped, EnterPreOperational2) => Some(PreOperational2)
    case (PreOperational2, Error) => Some(PreOperational1)
    case (ReadyToOperate, Error) => Some(PreOperational1)
    case (Operational, Error) => Some(PreOperational1)
    case (CsStopped, Error) => Some(PreOperational1)
    case (BasicEthernet, PowerlinkFrameReceived) => Some(PreOperational1)
    case _ => None
  }

  function MnTransition(s: NmtState, e: NmtEvent, flags: u32): Option<NmtState> {
    match (s, e)
    case (NotActive, Timeout) => Some(if StartsInBasicEthernet(flags) then BasicEthernet else PreOperational1)
    case (PreOperational1, AllCnsIdentified) => Some(PreOperational2)
    case (PreOperational2, ConfigurationCompleteCnsReady) => Some(ReadyToOperate)
    case (ReadyToOperate, AllMandatoryCnsOperational) => Some(Operational)
    case (Operational, Error) => Some(PreOperational1)
    case (BasicEthernet, PowerlinkFrameReceived) => Some(PreOperational1)
    case _ => None
  }

  function Transition(role: Role, s: NmtState, e: NmtEvent): Option<NmtState> {
    match role
    case Controlled => CnTransition(s, e)
    case Managing(flags) => MnTransition(s, e, flags)
  }

  /** Next state, resets included: they all end in NotActive. */
  function NextState(role: Role, s: NmtState, e: NmtEvent): NmtState {
    if IsReset(e) then NotActive else GetOr(Transition(role, s, e), s)
  }

  /** The internal write of a state to 0x1F8C; it has no effect unless that is an UNSIGNED8 variable. */
  function ShowState(d: Dictionary, s: NmtState): Dictionary {
    Written(d, 0x1F8C, 0, Unsigned8(Code(s)), false)
  }

  predicate HasStateObject(d: Dictionary) {
    0x1F8C in d && d[0x1F8C].obj.Variable? && d[0x1F8C].obj.value.Unsigned8?
  }

  /** The indices whose power-on values a reset restores. */
  predicate ResetCovers(e: NmtEvent, i: u16) {
    && i != 0x1003
    && match e
       case Reset => 0x1000 <= i <= 0x9FFF
       case SwReset => 0x1000 <= i <= 0x9FFF
       case ResetNode => 0x1000 <= i <= 0x9FFF
       case ResetCommunication => 0x1000 <= i <= 0x1FFF
       case _ => false
  }

  function PowerOnCovered(d: Dictionary, e: NmtEvent, stored: Parameters): Dictionary {
    map i | i in d :: if ResetCovers(e, i) then d[i].(obj := PowerOnObject(i, d[i], stored)) else d[i]
  }

  /** A reset as one pointwise map: power-on values on the covered indices, then NotActive in 0x1F8C. */
  function ResetResult(d: Dictionary, e: NmtEvent, stored: Parameters): Dictionary {
    ShowState(PowerOnCovered(d, e, stored), NotActive)
  }

  /** An event that the controlled node reports as unexpected. */
  datatype Unexpected = Unexpected(state: NmtState, event: NmtEvent)

  function StepOd(role: Role, s: NmtState, od: OdState, e: NmtEvent): OdState {
    if IsReset(e) then od.(entries := ResetResult(od.entries, e, Loadable(od.storage)))
    else if NextState(role, s, e) != s then od.(entries := ShowState(od.entries, NextState(role, s, e)))
    else od
  }

  class NmtStateMachine {
    const role: Role
    var state: NmtState

    constructor (role: Role)
      ensures this.role == role && state == GsInitialising
    {
      this.role := role;
      state := GsInitialising;
    }

    method UpdateOdState(od: ObjectDictionary)
      modifies od
      ensures od.State() == old(od.State()).(entries := ShowState(old(od.entries), state))
    {
      var r := od.WriteInternal(0x1F8C, 0, Unsigned8(Code(state)), false);
    }

    /** The cascade of reset states, entered at the state that belongs to the event. */
    method ResetCascade(event: NmtEvent, od: ObjectDictionary)
      requires IsReset(event)
      modifies this, od
      ensures state == NotActive
      ensures od.State() == old(od.State()).(entries := ResetResult(old(od.entries), event, Loadable(old(od.storage))))
    {
      ghost var d0, stored := od.entries, Loadable(od.storage);
      var entry := match event
        case Reset => GsInitialising
        case SwReset => GsInitialising
        case ResetNode => GsResetApplication
        case ResetCommunication => GsResetCommunication
        case _ => GsResetConfiguration;
      if entry == GsInitialising {
        state := GsInitialising;
        UpdateOdState(od);
      }
      ghost var d1 := od.entries;
      SameButState(d0, GsInitialising);
      if entry == GsInitialising || entry == GsResetApplication {
        state := GsResetApplication;
        UpdateOdState(od);
        ghost var d2 := od.entries;
        od.RestorePowerOnValues(0x2000, 0x5FFF);
        ghost var d3 := od.entries;
        od.RestorePowerOnValues(0x6000, 0x9FFF);
        SameButState(d1, GsResetApplication);
        PowerOnIgnoresState(d2, d0, 0x2000, 0x5FFF, stored);
        PowerOnIgnoresState(d3, PowerOn(d0, 0x2000, 0x5FFF, stored), 0x6000, 0x9FFF, stored);
      }
      ghost var d4 := od.entries;
      ghost var g4 := if entry == GsInitialising || entry == GsResetApplication
                      then PowerOn(PowerOn(d0, 0x2000, 0x5FFF, stored), 0x6000, 0x9FFF, stored) else d0;
      assert Erased(d4) == Erased(g4);
      if entry == GsInitialising || entry == GsResetApplication || entry == GsResetCommunication {
        state := GsResetCommunication;
        UpdateOdState(od);
        ghost var d5 := od.entries;
        od.RestorePowerOnValues(0x1000, 0x1FFF);
        SameButState(d4, GsResetCommunication);
        PowerOnIgnoresState(d5, g4, 0x1000, 0x1FFF, stored);
      }
      ghost var d6 := od.entries;
      CascadeCovers(d0, event, stored);
      assert Erased(d6) == Erased(PowerOnCovered(d0, event, stored));
      state := GsResetConfiguration;
      UpdateOdState(od);
      SameButState(d6, GsResetConfiguration);
      ghost var d7 := od.entries;
      state := NotActive;
      UpdateOdState(od);
      ErasedShows(d7, PowerOnCovered(d0, event, stored), NotActive);
    }

    method ProcessEvent(event: NmtEvent, od: ObjectDictionary) returns (errors: seq<Unexpected>)
      modifies this, od
      ensures state == NextState(role, old(state), event)
      ensures od.State() == StepOd(role, old(state), old(od.State()), event)
      ensures errors == if role.Controlled? && !IsReset(event) && CnTransition(old(state), event) == None
                        then [Unexpected(old(state), event)] else []
    {
      var before := state;
      if IsReset(event) {
        ResetCascade(event, od);
        if before != state {
          ghost var d := od.entries;
          UpdateOdState(od);
          ShowTwice(PowerOnCovered(old(od.entries), event, Loadable(old(od.storage))), NotActive, NotActive);
        }
        return [];
      }
      errors := [];
      var next := before;
      match Transition(role, before, event) {
        case Some(s) => next := s;
        case None =>
          if role.Controlled? {
            errors := [Unexpected(before, event)];
          }
      }
      if before != next {
        state := next;
        UpdateOdState(od);
      }
    }

    /** Boot of a fresh machine: the software reset, once. */
    method RunInternalInitialisation(od: ObjectDictionary)
      modifies this, od
      ensures old(state) != GsInitialising ==> state == old(state) && od.State() == old(od.State())
      ensures old(state) == GsInitialising ==>
                state == NotActive && od.State() == StepOd(role, GsInitialising, old(od.State()), SwReset)
    {
      if state == GsInitialising {
        ResetCascade(SwReset, od);
      }
    }
  }

  // ---- The cascade collapses to one map ----

  /** The dictionary with a fixed state shown: equal for dictionaries that differ only in the shown state. */
  function Erased(d: Dictionary): Dictionary { ShowState(d, GsOff) }

  lemma ShowTwice(d: Dictionary, s: NmtState, t: NmtState)
    ensures ShowState(ShowState(d, s), t) == ShowState(d, t)
  {
    if HasStateObject(d) {
      assert ShowState(ShowState(d, s), t) == ShowState(d, t);
    }
  }

  lemma SameButState(d: Dictionary, s: NmtState)
    ensures Erased(ShowState(d, s)) == Erased(d)
  {
    ShowTwice(d, s, GsOff);
  }

  lemma ErasedShows(a: Dictionary, b: Dictionary, s: NmtState)
    requires Erased(a) == Erased(b)
    ensures ShowState(a, s) == ShowState(b, s)
  {
    ShowTwice(a, GsOff, s);
    ShowTwice(b, GsOff, s);
  }

  /** Equal but for the state that they show. */
  ghost predicate AgreeButState(a: Dictionary, b: Dictionary) {
    && a.Keys == b.Keys
    && (forall i :: i in a && i != 0x1F8C ==> a[i] == b[i])
    && (0x1F8C in a ==>
          a[0x1F8C] == b[0x1F8C]
          || (HasStateObject(a) && HasStateObject(b) && a[0x1F8C].(obj := b[0x1F8C].obj) == b[0x1F8C]))
  }

  lemma AgreeingIsErased(a: Dictionary, b: Dictionary)
    requires AgreeButState(a, b)
    ensures Erased(a) == Erased(b)
  {
    if HasStateObject(a) {
      assert Erased(a) == a[0x1F8C := a[0x1F8C].(obj := Variable(Unsigned8(Code(GsOff))))];
      assert Erased(b) == b[0x1F8C := b[0x1F8C].(obj := Variable(Unsigned8(Code(GsOff))))];
      assert Erased(a) == Erased(b);
    } else {
      assert a == b;
    }
  }

  /** Power-on values do not depend on the state shown before, apart from that state itself. */
  lemma PowerOnOfShown(d: Dictionary, s: NmtState, lo: u16, hi: u16, stored: Parameters)
    ensures Erased(PowerOn(ShowState(d, s), lo, hi, stored)) == Erased(PowerOn(d, lo, hi, stored))
  {
    AgreeingIsErased(PowerOn(ShowState(d, s), lo, hi, stored), PowerOn(d, lo, hi, stored));
  }

  lemma PowerOnIgnoresState(a: Dictionary, b: Dictionary, lo: u16, hi: u16, stored: Parameters)
    requires Erased(a) == Erased(b)
    ensures Erased(PowerOn(a, lo, hi, stored)) == Erased(PowerOn(b, lo, hi, stored))
  {
    PowerOnOfShown(a, GsOff, lo, hi, stored);
    PowerOnOfShown(b, GsOff, lo, hi, stored);
  }

  /** The ranges that the cascade restores one after the other are the covered indices. */
  lemma CascadeCovers(d: Dictionary, e: NmtEvent, stored: Parameters)
    requires IsReset(e)
    ensures var app := if e.ResetCommunication? || e.ResetConfiguration? then d
                       else PowerOn(PowerOn(d, 0x2000, 0x5FFF, stored), 0x6000, 0x9FFF, stored);
            PowerOnCovered(d, e, stored) ==
            if e.ResetConfiguration? then app else PowerOn(app, 0x1000, 0x1FFF, stored)
  {}

  // ---- Resets absorb each other ----

  lemma PowerOnElementTwice(index: u16, k: nat, v: ObjectValue, fallback: Option<ObjectValue>, stored: Parameters)
    ensures PowerOnElement(index, k, PowerOnElement(index, k, v, fallback, stored), fallback, stored)
         == PowerOnElement(index, k, v, fallback, stored)
  {
    if fallback.Some? { SameTypeEquivalence(fallback.value, fallback.value, fallback.value); }
  }

  lemma PowerOnObjectTwice(index: u16, e: ObjectEntry, stored: Parameters)
    ensures PowerOnObject(index, e.(obj := PowerOnObject(index, e, stored)), stored) == PowerOnObject(index, e, stored)
  {
    if !e.obj.Variable? {
      var once := PowerOnList(index, e.obj.values, e.defaultValue, stored);
      forall k | 0 <= k < |once| ensures PowerOnElement(index, k, once[k], e.defaultValue, stored) == once[k] {
        PowerOnElementTwice(index, k, e.obj.values[k], e.defaultValue, stored);
      }
      assert PowerOnList(index, once, e.defaultValue, stored) == once;
    }
  }

  lemma CoveredOfShown(d: Dictionary, s: NmtState, e: NmtEvent, stored: Parameters)
    ensures Erased(PowerOnCovered(ShowState(d, s), e, stored)) == Erased(PowerOnCovered(d, e, stored))
  {
    AgreeingIsErased(PowerOnCovered(ShowState(d, s), e, stored), PowerOnCovered(d, e, stored));
  }

  lemma CoveredAbsorbs(d: Dictionary, small: NmtEvent, large: NmtEvent, stored: Parameters)
    requires forall i: u16 :: ResetCovers(small, i) ==> ResetCovers(large, i)
    ensures PowerOnCovered(PowerOnCovered(d, small, stored), large, stored) == PowerOnCovered(d, large, stored)
  {
    var once := PowerOnCovered(d, small, stored);
    forall i | i in d ensures PowerOnCovered(once, large, stored)[i] == PowerOnCovered(d, large, stored)[i] {
      if ResetCovers(small, i) {
        assert once[i] == d[i].(obj := PowerOnObject(i, d[i], stored));
        PowerOnObjectTwice(i, d[i], stored);
      } else {
        assert once[i] == d[i];
      }
    }
  }

  /**
   * The reset ranges are nested: ResetConfiguration within ResetCommunication within ResetNode,
   * which equals SwReset and Reset.
   */
  predicate NoWiderThan(small: NmtEvent, large: NmtEvent) {
    && IsReset(small) && IsReset(large)
    && (small.ResetConfiguration? || (small.ResetCommunication? && !large.ResetConfiguration?)
        || large.ResetNode? || large.SwReset? || large.Reset?)
  }

  /** A wider reset after a narrower one is the wider reset alone; so a second reset changes nothing. */
  lemma ResetsAbsorb(d: Dictionary, small: NmtEvent, large: NmtEvent, stored: Parameters)
    requires NoWiderThan(small, large)
    ensures ResetResult(ResetResult(d, small, stored), large, stored) == ResetResult(d, large, stored)
  {
    var once := PowerOnCovered(d, small, stored);
    CoveredOfShown(once, NotActive, large, stored);
    CoveredAbsorbs(d, small, large, stored);
    ErasedShows(PowerOnCovered(ResetResult(d, small, stored), large, stored), PowerOnCovered(d, large, stored),
                NotActive);
  }

  lemma FullResetsAgree(d: Dictionary, stored: Parameters)
    ensures ResetResult(d, ResetNode, stored) == ResetResult(d, SwReset, stored) == ResetResult(d, Reset, stored)
  {
    assert PowerOnCovered(d, ResetNode, stored) == PowerOnCovered(d, SwReset, stored)
           == PowerOnCovered(d, Reset, stored);
  }

  /** What one index holds after a reset, whatever the types of stored and default values. */
  lemma ResetPointwise(d: Dictionary, e: NmtEvent, stored: Parameters, i: u16)
    requires IsReset(e) && i in d
    ensures var d' := ResetResult(d, e, stored);
            var power := if ResetCovers(e, i) then PowerOnObject(i, d[i], stored) else d[i].obj;
            && d'.Keys == d.Keys
            && d'[i] == d[i].(obj := if i == 0x1F8C && power.Variable? && power.value.Unsigned8?
                                     then Variable(Unsigned8(Code(NotActive))) else power)
  {}

  // ---- Ordered boot over whole runs ----

  function RunNmt(role: Role, s: NmtState, es: seq<NmtEvent>): NmtState {
    if es == [] then s else NextState(role, RunNmt(role, s, es[..|es| - 1]), es[|es| - 1])
  }

  /** The state before the k-th event. */
  function StateAt(role: Role, s: NmtState, es: seq<NmtEvent>, k: nat): NmtState
    requires k <= |es|
  {
    RunNmt(role, s, es[..k])
  }

  /** From event k on the machine is in one state, which it entered from another by that event. */
  ghost predicate EnteredAt(role: Role, s: NmtState, es: seq<NmtEvent>, k: nat, end: nat, source: NmtState,
                            e: NmtEvent, target: NmtState) {
    && k < end <= |es|
    && StateAt(role, s, es, k) == source && es[k] == e
    && forall j :: k < j <= end ==> StateAt(role, s, es, j) == target
  }

  /** target is entered from other states only by event e in state source. */
  ghost predicate OnlyEntry(role: Role, source: NmtState, e: NmtEvent, target: NmtState) {
    forall s: NmtState, x: NmtEvent :: s != target && NextState(role, s, x) == target ==> s == source && x == e
  }

  lemma StateAtStep(role: Role, s: NmtState, es: seq<NmtEvent>, k: nat)
    requires k < |es|
    ensures StateAt(role, s, es, k + 1) == NextState(role, StateAt(role, s, es, k), es[k])
  {
    assert es[..k + 1][..k] == es[..k];
  }

  lemma {:induction false} LastEntry(role: Role, s: NmtState, es: seq<NmtEvent>, end: nat, source: NmtState,
                                     e: NmtEvent, target: NmtState)
    returns (k: nat)
    requires OnlyEntry(role, source, e, target) && s != target && end <= |es|
    requires StateAt(role, s, es, end) == target
    ensures EnteredAt(role, s, es, k, end, source, e, target)
  {
    assert es[..0] == [];
    StateAtStep(role, s, es, end - 1);
    if StateAt(role, s, es, end - 1) == target {
      k := LastEntry(role, s, es, end - 1, source, e, target);
    } else {
      k := end - 1;
    }
  }

  /**
   * A controlled node is Operational only after it completed its configuration in
   * PreOperational2, waited in ReadyToOperate and then received StartNode.
   */
  lemma CnBootsInOrder(s: NmtState, es: seq<NmtEvent>) returns (i: nat, j: nat)
    requires !s.ReadyToOperate? && !s.Operational? && RunNmt(Controlled, s, es) == Operational
    ensures EnteredAt(Controlled, s, es, i, j, PreOperational2, CnConfigurationComplete, ReadyToOperate)
    ensures EnteredAt(Controlled, s, es, j, |es|, ReadyToOperate, StartNode, Operational)
  {
    assert es[..|es|] == es;
    j := LastEntry(Controlled, s, es, |es|, ReadyToOperate, StartNode, Operational);
    i := LastEntry(Controlled, s, es, j, PreOperational2, CnConfigurationComplete, ReadyToOperate);
  }

  /**
   * A managing node is Operational only after, since it was last in PreOperational1, it took
   * AllCnsIdentified, ConfigurationCompleteCnsReady and AllMandatoryCnsOperational in order.
   */
  lemma MnBootsInOrder(flags: u32, s: NmtState, es: seq<NmtEvent>) returns (i: nat, j: nat, k: nat)
    requires !s.PreOperational2? && !s.ReadyToOperate? && !s.Operational?
    requires RunNmt(Managing(flags), s, es) == Operational
    ensures EnteredAt(Managing(flags), s, es, i, j, PreOperational1, AllCnsIdentified, PreOperational2)
    ensures EnteredAt(Managing(flags), s, es, j, k, PreOperational2, ConfigurationCompleteCnsReady, ReadyToOperate)
    ensures EnteredAt(Managing(flags), s, es, k, |es|, ReadyToOperate, AllMandatoryCnsOperational, Operational)
  {
    var r := Managing(flags);
    assert es[..|es|] == es;
    k := LastEntry(r, s, es, |es|, ReadyToOperate, AllMandatoryCnsOperational, Operational);
    j := LastEntry(r, s, es, k, PreOperational2, ConfigurationCompleteCnsReady, ReadyToOperate);
    i := LastEntry(r, s, es, j, PreOperational1, AllCnsIdentified, PreOperational2);
  }
}
