/**
 * Runs of the NMT machines, state by state: how each state is entered, what it takes to leave it, and
 * which events a controlled node does not expect
 * (crates/powerlink-rs/src/nmt/cn_state_machine.rs, mn_state_machine.rs; EPSG DS 301, section 7.1).
 */
module NmtRuns {
  import opened Bytes
  import opened NmtStates
  import opened NmtMachines

  // ---- Controlled nodes ----

  /** The five commands that reset a node of either kind. */
  predicate Resets(e: NmtEvent) {
    match e
    case Reset => true
    case SwReset => true
    case ResetNode => true
    case ResetCommunication => true
    case ResetConfiguration => true
    case _ => false
  }

  predicate Runs(s: NmtState) { s.PreOperational2? || s.ReadyToOperate? || s.Operational? }

  /** A controlled node enters a state from another one. */
  predicate CnEnters(t: NmtState, s: NmtState, e: NmtEvent) {
    match t
    case NotActive => Resets(e)
    case BasicEthernet => s.NotActive? && e.Timeout?
    case PreOperational1 =>
      || (s.NotActive? && (e.SocReceived? || e.SocSoAReceived?))
      || (s.BasicEthernet? && e.PowerlinkFrameReceived?)
      || ((Runs(s) || s.CsStopped?) && e.Error?)
    case PreOperational2 =>
      || (s.PreOperational1? && e.SocReceived?)
      || ((s.Operational? || s.CsStopped?) && e.EnterPreOperational2?)
    case ReadyToOperate => s.PreOperational2? && e.CnConfigurationComplete?
    case Operational => s.ReadyToOperate? && e.StartNode?
    case CsStopped => Runs(s) && e.StopNode?
    case _ => false
  }

  /** What makes a controlled node leave a state. */
  predicate CnLeaves(t: NmtState, e: NmtEvent) {
    match t
    case NotActive => e.SocReceived? || e.SocSoAReceived? || e.Timeout?
    case BasicEthernet => e.PowerlinkFrameReceived? || Resets(e)
    case PreOperational1 => e.SocReceived? || Resets(e)
    case PreOperational2 => e.CnConfigurationComplete? || e.StopNode? || e.Error? || Resets(e)
    case ReadyToOperate => e.StartNode? || e.StopNode? || e.Error? || Resets(e)
    case Operational => e.StopNode? || e.EnterPreOperational2? || e.Error? || Resets(e)
    case CsStopped => e.EnterPreOperational2? || e.Error? || Resets(e)
    case _ => Resets(e)
  }

  // ---- Managing nodes ----

  /** Bit 13 of the start-up flags. */
  predicate Bit13(flags: u32) { flags % 0x4000 >= 0x2000 }

  /** A managing node enters a state from another one. */
  predicate MnEnters(t: NmtState, s: NmtState, e: NmtEvent, flags: u32) {
    match t
    case NotActive => Resets(e)
    case BasicEthernet => s.NotActive? && e.Timeout? && Bit13(flags)
    case PreOperational1 =>
      || (s.NotActive? && e.Timeout? && !Bit13(flags))
      || (s.BasicEthernet? && e.PowerlinkFrameReceived?)
      || (s.Operational? && e.Error?)
    case PreOperational2 => s.PreOperational1? && e.AllCnsIdentified?
    case ReadyToOperate => s.PreOperational2? && e.ConfigurationCompleteCnsReady?
    case Operational => s.ReadyToOperate? && e.AllMandatoryCnsOperational?
    case _ => false
  }

  predicate MnLeaves(t: NmtState, e: NmtEvent) {
    match t
    case NotActive => e.Timeout?
    case BasicEthernet => e.PowerlinkFrameReceived? || Resets(e)
    case PreOperational1 => e.AllCnsIdentified? || Resets(e)
    case PreOperational2 => e.ConfigurationCompleteCnsReady? || Resets(e)
    case ReadyToOperate => e.AllMandatoryCnsOperational? || Resets(e)
    case Operational => e.Error? || Resets(e)
    case _ => Resets(e)
  }

  // ---- Both ----

  predicate Enters(role: Role, t: NmtState, s: NmtState, e: NmtEvent) {
    match role
    case Controlled => CnEnters(t, s, e)
    case Managing(flags) => MnEnters(t, s, e, flags)
  }

  predicate Leaves(role: Role, t: NmtState, e: NmtEvent) {
    match role
    case Controlled => CnLeaves(t, e)
    case Managing(_) => MnLeaves(t, e)
  }

  lemma BitIsSet(flags: u32)
    ensures StartsInBasicEthernet(flags) <==> Bit13(flags)
  {
    assert flags % 0x4000 == flags - flags / 0x4000 * 0x4000;
    assert flags / 0x4000 == flags / 0x2000 / 2;
  }

  /** One event, seen from the state that it leads to. */
  lemma {:induction false} StepBySides(role: Role, t: NmtState, s: NmtState, e: NmtEvent)
    ensures NextState(role, s, e) == t <==> if s == t then !Leaves(role, t, e) else Enters(role, t, s, e)
  {
    match role {
      case Controlled => CnStepBySides(t, s, e);
      case Managing(flags) => MnStepBySides(t, s, e, flags);
    }
  }

  lemma {:induction false} CnStepBySides(t: NmtState, s: NmtState, e: NmtEvent)
    ensures NextState(Controlled, s, e) == t <==> if s == t then !CnLeaves(t, e) else CnEnters(t, s, e)
  {}

  lemma {:induction false} MnStepBySides(t: NmtState, s: NmtState, e: NmtEvent, flags: u32)
    ensures NextState(Managing(flags), s, e) == t <==> if s == t then !MnLeaves(t, e) else MnEnters(t, s, e, flags)
  {
    BitIsSet(flags);
  }

  /** From event k on, exclusively, nothing makes the node leave the state. */
  ghost predicate StaysFrom(role: Role, t: NmtState, es: seq<NmtEvent>, k: int) {
    forall j :: 0 <= j < |es| && k < j ==> !Leaves(role, t, es[j])
  }

  /** Event k has led into the state from another one, and nothing has led out of it since. */
  ghost predicate EnteredBy(role: Role, t: NmtState, s0: NmtState, es: seq<NmtEvent>, k: nat) {
    && k < |es| && StateAt(role, s0, es, k) != t && Enters(role, t, StateAt(role, s0, es, k), es[k])
    && StaysFrom(role, t, es, k)
  }

  ghost predicate WasEntered(role: Role, t: NmtState, s0: NmtState, es: seq<NmtEvent>) {
    exists k: nat :: EnteredBy(role, t, s0, es, k)
  }

  /** Where the node is, told from the events alone. */
  ghost predicate IsThere(role: Role, t: NmtState, s0: NmtState, es: seq<NmtEvent>) {
    (s0 == t && StaysFrom(role, t, es, -1)) || WasEntered(role, t, s0, es)
  }

  lemma {:induction false} PrefixStates(role: Role, s0: NmtState, es: seq<NmtEvent>, k: nat)
    requires k < |es|
    ensures StateAt(role, s0, es[..|es| - 1], k) == StateAt(role, s0, es, k)
  {
    assert es[..|es| - 1][..k] == es[..k];
  }

  /**
   * In every run, for every state of either kind of node: the node is there at the end if and only if some
   * event has led it there from another state, or it began there, and no event has led it away since.
   */
  lemma {:induction false} StateExactly(role: Role, t: NmtState, s0: NmtState, es: seq<NmtEvent>)
    ensures RunNmt(role, s0, es) == t <==> IsThere(role, t, s0, es)
  {
    if es != [] {
      var m := |es| - 1;
      StateExactly(role, t, s0, es[..m]);
      if RunNmt(role, s0, es) == t { EnteredAtLast(role, t, s0, es); }
    }
    if s0 == t && StaysFrom(role, t, es, -1) { StillThere(role, t, s0, es); }
    if k: nat :| EnteredBy(role, t, s0, es, k) { EnteredStays(role, t, s0, es, k); }
  }

  /** If it is there, the last event has led there or it was there before. */
  lemma {:induction false} EnteredAtLast(role: Role, t: NmtState, s0: NmtState, es: seq<NmtEvent>)
    requires es != [] && RunNmt(role, s0, es) == t
    requires RunNmt(role, s0, es[..|es| - 1]) == t <==> IsThere(role, t, s0, es[..|es| - 1])
    ensures IsThere(role, t, s0, es)
  {
    var m := |es| - 1;
    StepBySides(role, t, RunNmt(role, s0, es[..m]), es[m]);
    if RunNmt(role, s0, es[..m]) != t {
      assert EnteredBy(role, t, s0, es, m);
    } else if k: nat :| EnteredBy(role, t, s0, es[..m], k) {
      OneMoreStay(role, t, s0, es, k);
    } else {
      StaysOneMore(role, t, es, -1);
    }
  }

  lemma {:induction false} StaysOneMore(role: Role, t: NmtState, es: seq<NmtEvent>, k: int)
    requires es != [] && StaysFrom(role, t, es[..|es| - 1], k) && !Leaves(role, t, es[|es| - 1])
    ensures StaysFrom(role, t, es, k)
  {}

  lemma {:induction false} OneMoreStay(role: Role, t: NmtState, s0: NmtState, es: seq<NmtEvent>, k: nat)
    requires es != [] && EnteredBy(role, t, s0, es[..|es| - 1], k) && !Leaves(role, t, es[|es| - 1])
    ensures EnteredBy(role, t, s0, es, k)
  {
    PrefixStates(role, s0, es, k);
    StaysOneMore(role, t, es, k);
  }

  lemma {:induction false} StillThere(role: Role, t: NmtState, s0: NmtState, es: seq<NmtEvent>)
    requires s0 == t && StaysFrom(role, t, es, -1)
    ensures RunNmt(role, s0, es) == t
  {
    if es != [] {
      StillThere(role, t, s0, es[..|es| - 1]);
      StepBySides(role, t, t, es[|es| - 1]);
    }
  }

  lemma {:induction false} EnteredStays(role: Role, t: NmtState, s0: NmtState, es: seq<NmtEvent>, k: nat)
    requires EnteredBy(role, t, s0, es, k)
    ensures RunNmt(role, s0, es) == t
  {
    var m := |es| - 1;
    if k == m {
      StepBySides(role, t, StateAt(role, s0, es, m), es[m]);
    } else {
      PrefixStates(role, s0, es, k);
      assert EnteredBy(role, t, s0, es[..m], k);
      EnteredStays(role, t, s0, es[..m], k);
      StepBySides(role, t, t, es[m]);
    }
  }

  /** Event k has stopped a running node, and none since has released, failed or reset it. */
  ghost predicate StoppedBy(s0: NmtState, es: seq<NmtEvent>, k: nat) {
    && k < |es| && es[k] == StopNode && Runs(StateAt(Controlled, s0, es, k))
    && forall j :: k < j < |es| ==> !es[j].EnterPreOperational2? && !es[j].Error? && !Resets(es[j])
  }

  /** A node is stopped exactly when it was stopped while running, and has not been released, failed or reset since. */
  lemma {:induction false} StoppedUntilReleased(s0: NmtState, es: seq<NmtEvent>)
    requires s0 != CsStopped
    ensures RunNmt(Controlled, s0, es) == CsStopped <==> exists k: nat :: StoppedBy(s0, es, k)
  {
    StateExactly(Controlled, CsStopped, s0, es);
    if k: nat :| EnteredBy(Controlled, CsStopped, s0, es, k) { assert StoppedBy(s0, es, k); }
    if k: nat :| StoppedBy(s0, es, k) { assert EnteredBy(Controlled, CsStopped, s0, es, k); }
  }

  // ---- Unexpected events ----

  /**
   * A controlled node reports an event as unexpected if and only if it is no reset, does not change its
   * state, and is not the permission to become ready, which is noted in PreOperational2.
   */
  lemma {:induction false} UnexpectedExactly(s: NmtState, e: NmtEvent)
    requires !Resets(e)
    ensures CnTransition(s, e).None? <==>
              && (forall t: NmtState :: t != s ==> !CnEnters(t, s, e))
              && !(s.PreOperational2? && e.EnableReadyToOperate?)
  {
    forall t: NmtState | t != s ensures NextState(Controlled, s, e) == t <==> CnEnters(t, s, e) {
      CnStepBySides(t, s, e);
    }
    if CnTransition(s, e).Some? && NextState(Controlled, s, e) != s {
      assert CnEnters(NextState(Controlled, s, e), s, e);
    }
  }

  // ---- The codes of the states ----

  /**
   * The codes are all different; the low half tells the common, the inactive, the cyclic and the Ethernet
   * states apart.
   */
  lemma {:induction false} CodesTellStatesApart(s: NmtState, t: NmtState)
    ensures Code(s) == Code(t) ==> s == t
    ensures IsCyclic(s) || s.PreOperational1? <==> Code(s) % 0x10 == 0xD
    ensures s.NotActive? <==> Code(s) % 0x10 == 0xC
    ensures s.BasicEthernet? <==> Code(s) % 0x10 == 0xE
    ensures s.GsInitialising? || s.GsResetApplication? || s.GsResetCommunication? || s.GsResetConfiguration? <==>
              Code(s) % 0x10 == 0x9
  {}
}
