/**
 * The DLL cycle state machine of a controlled node
 * (crates/powerlink-rs/src/frame/cs_state_machine.rs; EPSG DS 301, section 4.2.4.5).
 */
module DllCycle {
  import opened NmtStates

  datatype CycleState = NonCyclic | WaitSoc | WaitPreq | WaitSoa

  datatype CycleEvent = Soc | Preq | Pres | Soa | Asnd | SocTimeout

  datatype DllError =
    | LossOfSoc
    | LossOfSoa
    | LossOfPreq
    | UnexpectedEvent(state: CycleState, event: CycleEvent)

  /** The transition taken in the cyclic NMT states, with the errors it reports. */
  function CyclicStep(s: CycleState, e: CycleEvent): (CycleState, seq<DllError>) {
    match (s, e)
    case (WaitPreq, Preq) => (WaitSoa, [])
    case (WaitSoa, Soa) => (WaitSoc, [])
    case (WaitSoa, Preq) => (WaitSoc, [LossOfSoc, LossOfSoa])
    case (WaitSoa, SocTimeout) => (WaitSoc, [LossOfSoc, LossOfSoa])
    case (WaitSoc, Asnd) => (WaitSoc, [])
    case (WaitSoc, Preq) => (WaitSoc, [LossOfSoc])
    case (WaitSoc, Pres) => (WaitSoc, [LossOfSoc])
    case (WaitSoc, Soa) => (WaitSoc, [LossOfSoc])
    case (WaitSoc, SocTimeout) => (WaitSoc, [LossOfSoc])
    case (WaitPreq, Pres) => (WaitPreq, [])
    case (WaitPreq, Asnd) => (WaitPreq, [LossOfSoa])
    case (WaitPreq, Soc) => (WaitPreq, [LossOfSoa])
    case (WaitPreq, Soa) => (WaitSoc, [LossOfPreq])
    case (WaitPreq, SocTimeout) => (WaitSoc, [LossOfSoc, LossOfSoa])
    case (WaitSoa, Soc) => (WaitPreq, [LossOfSoa])
    case (WaitSoa, Pres) => (WaitSoa, [])
    case (WaitSoa, Asnd) => (WaitSoa, [LossOfSoa])
    case (_, Soc) => (WaitPreq, [])
    case (_, _) => (s, [UnexpectedEvent(s, e)])
  }

  function Step(s: CycleState, e: CycleEvent, nmt: NmtState): (CycleState, seq<DllError>) {
    if IsCyclic(nmt) then CyclicStep(s, e) else (NonCyclic, [])
  }

  class CycleStateMachine {
    var state: CycleState

    constructor ()
      ensures state == NonCyclic
    {
      state := NonCyclic;
    }

    method ProcessEvent(event: CycleEvent, nmt: NmtState) returns (errors: seq<DllError>)
      modifies this
      ensures (state, errors) == Step(old(state), event, nmt)
    {
      errors := [];
      if IsCyclic(nmt) {
        var next := state;
        match (state, event) {
          case (WaitPreq, Preq) => next := WaitSoa;
          case (WaitSoa, Soa) => next := WaitSoc;
          case (WaitSoa, Preq) => errors := errors + [LossOfSoc]; errors := errors + [LossOfSoa]; next := WaitSoc;
          case (WaitSoa, SocTimeout) => errors := errors + [LossOfSoc]; errors := errors + [LossOfSoa]; next := WaitSoc;
          case (WaitSoc, Asnd) => next := WaitSoc;
          case (WaitSoc, Preq) => errors := errors + [LossOfSoc]; next := WaitSoc;
          case (WaitSoc, Pres) => errors := errors + [LossOfSoc]; next := WaitSoc;
          case (WaitSoc, Soa) => errors := errors + [LossOfSoc]; next := WaitSoc;
          case (WaitSoc, SocTimeout) => errors := errors + [LossOfSoc]; next := WaitSoc;
          case (WaitPreq, Pres) => next := WaitPreq;
          case (WaitPreq, Asnd) => errors := errors + [LossOfSoa]; next := WaitPreq;
          case (WaitPreq, Soc) => errors := errors + [LossOfSoa]; next := WaitPreq;
          case (WaitPreq, Soa) => errors := errors + [LossOfPreq]; next := WaitSoc;
          case (WaitPreq, SocTimeout) =>
            errors := errors + [LossOfSoc];
            errors := errors + [LossOfSoa];
            next := WaitSoc;
          case (WaitSoa, Soc) => errors := errors + [LossOfSoa]; next := WaitPreq;
          case (WaitSoa, Pres) => next := WaitSoa;
          case (WaitSoa, Asnd) => errors := errors + [LossOfSoa]; next := WaitSoa;
          case (_, Soc) => next := WaitPreq;
          case (current, _) => errors := errors + [UnexpectedEvent(current, event)];
        }
        assert errors == CyclicStep(old(state), event).1;
        state := next;
      } else {
        state := NonCyclic;
      }
    }
  }

  // ---- Runs ----

  /** One received event together with the NMT state of the node at that moment. */
  datatype Input = Input(event: CycleEvent, nmt: NmtState)

  /** State after a run and everything it reported. */
  function Run(s: CycleState, w: seq<Input>): (CycleState, seq<DllError>) {
    if w == [] then (s, [])
    else
      var (s1, errs1) := Run(s, w[..|w| - 1]);
      var last := w[|w| - 1];
      var (s2, errs2) := Step(s1, last.event, last.nmt);
      (s2, errs1 + errs2)
  }

  function InState(w: seq<CycleEvent>, nmt: NmtState): (r: seq<Input>)
    ensures |r| == |w|
  {
    seq(|w|, k requires 0 <= k < |w| => Input(w[k], nmt))
  }

  // ---- Error-free language: (Soc Pres* Preq Pres* Soa Asnd*)* ----

  /** One complete cycle, given by how many cross-traffic and asynchronous frames it has. */
  datatype Shape = Shape(before: nat, after: nat, asnds: nat)

  function Repeat(e: CycleEvent, n: nat): (r: seq<CycleEvent>)
    ensures |r| == n && forall k :: 0 <= k < n ==> r[k] == e
  {
    seq(n, _ => e)
  }

  function OneCycle(c: Shape): seq<CycleEvent> {
    [Soc] + Repeat(Pres, c.before) + [Preq] + Repeat(Pres, c.after) + [Soa] + Repeat(Asnd, c.asnds)
  }

  function Cycles(cs: seq<Shape>): seq<CycleEvent> {
    if cs == [] then [] else Cycles(cs[..|cs| - 1]) + OneCycle(cs[|cs| - 1])
  }

  ghost predicate InLanguage(w: seq<CycleEvent>) {
    exists cs: seq<Shape> :: w <= Cycles(cs)
  }

  /** What an error-free word looks like in each state. */
  ghost predicate Explains(s: CycleState, w: seq<CycleEvent>, cs: seq<Shape>, a: nat, b: nat) {
    match s
    case NonCyclic => w == []
    case WaitSoc => cs != [] && w == Cycles(cs)
    case WaitPreq => w == Cycles(cs) + [Soc] + Repeat(Pres, a)
    case WaitSoa => w == Cycles(cs) + [Soc] + Repeat(Pres, a) + [Preq] + Repeat(Pres, b)
  }

  lemma RunSnoc(s: CycleState, w: seq<Input>, i: Input)
    ensures Run(s, w + [i]) ==
            var (s1, errs1) := Run(s, w);
            var (s2, errs2) := Step(s1, i.event, i.nmt);
            (s2, errs1 + errs2)
  {
    assert (w + [i])[..|w|] == w;
  }

  lemma {:induction false} RunConcat(s: CycleState, v: seq<Input>, w: seq<Input>)
    ensures Run(s, v + w) ==
            var (s1, errs1) := Run(s, v);
            var (s2, errs2) := Run(s1, w);
            (s2, errs1 + errs2)
  {
    if w == [] {
      assert v + w == v;
      assert Run(s, v).1 + [] == Run(s, v).1;
    } else {
      var w' := w[..|w| - 1];
      RunConcat(s, v, w');
      assert v + w == (v + w') + [w[|w| - 1]];
      RunSnoc(s, v + w', w[|w| - 1]);
      var (s1, errs1) := Run(s, v);
      var (s2, errs2) := Run(s1, w');
      var errs3 := Step(s2, w[|w| - 1].event, w[|w| - 1].nmt).1;
      assert (errs1 + errs2) + errs3 == errs1 + (errs2 + errs3);
    }
  }

  /** Extending a cycle by one asynchronous frame. */
  lemma OneCycleLonger(c: Shape)
    ensures OneCycle(c.(asnds := c.asnds + 1)) == OneCycle(c) + [Asnd]
  {
    var p := [Soc] + Repeat(Pres, c.before) + [Preq] + Repeat(Pres, c.after) + [Soa];
    assert Repeat(Asnd, c.asnds + 1) == Repeat(Asnd, c.asnds) + [Asnd];
    assert p + (Repeat(Asnd, c.asnds) + [Asnd]) == (p + Repeat(Asnd, c.asnds)) + [Asnd];
  }

  function Lengthen(cs: seq<Shape>): seq<Shape>
    requires cs != []
  {
    var c := cs[|cs| - 1];
    cs[..|cs| - 1] + [c.(asnds := c.asnds + 1)]
  }

  lemma OneMoreAsnd(cs: seq<Shape>)
    requires cs != []
    ensures Cycles(Lengthen(cs)) == Cycles(cs) + [Asnd]
  {
    var c := cs[|cs| - 1];
    var whole := Cycles(cs[..|cs| - 1]);
    OneCycleLonger(c);
    assert Lengthen(cs)[..|cs| - 1] == cs[..|cs| - 1];
    assert whole + (OneCycle(c) + [Asnd]) == (whole + OneCycle(c)) + [Asnd];
  }

  lemma OneMoreCycle(cs: seq<Shape>, c: Shape)
    ensures Cycles(cs + [c]) == Cycles(cs) + OneCycle(c)
  {
    assert (cs + [c])[..|cs|] == cs;
  }

  lemma OneCycleWithoutAsnd(a: nat, b: nat, x: seq<CycleEvent>)
    ensures x + OneCycle(Shape(a, b, 0)) == x + [Soc] + Repeat(Pres, a) + [Preq] + Repeat(Pres, b) + [Soa]
  {
    assert Repeat(Asnd, 0) == [];
  }

  /** One more error-free event keeps the word explained. */
  lemma ExplainedStep(s: CycleState, w: seq<CycleEvent>, e: CycleEvent, cs: seq<Shape>, a: nat, b: nat)
    returns (cs': seq<Shape>, a': nat, b': nat)
    requires Explains(s, w, cs, a, b) && CyclicStep(s, e).1 == []
    ensures Explains(CyclicStep(s, e).0, w + [e], cs', a', b')
  {
    cs', a', b' := cs, a, b;
    match (s, e) {
      case (NonCyclic, Soc) => cs', a' := [], 0;
      case (WaitSoc, Soc) => a' := 0;
      case (WaitSoc, Asnd) => OneMoreAsnd(cs); cs' := Lengthen(cs);
      case (WaitPreq, Pres) => a' := a + 1; assert Repeat(Pres, a + 1) == Repeat(Pres, a) + [Pres];
      case (WaitPreq, Preq) => b' := 0;
      case (WaitSoa, Pres) => b' := b + 1; assert Repeat(Pres, b + 1) == Repeat(Pres, b) + [Pres];
      case (WaitSoa, Soa) =>
        OneMoreCycle(cs, Shape(a, b, 0));
        OneCycleWithoutAsnd(a, b, Cycles(cs));
        cs' := cs + [Shape(a, b, 0)];
      case _ =>
    }
  }

  /** A run that reports nothing is explained by whole cycles and at most one unfinished one. */
  lemma {:induction false} ErrorFreeIsExplained(w: seq<CycleEvent>, nmt: NmtState)
    returns (cs: seq<Shape>, a: nat, b: nat)
    requires IsCyclic(nmt)
    requires Run(NonCyclic, InState(w, nmt)).1 == []
    ensures Explains(Run(NonCyclic, InState(w, nmt)).0, w, cs, a, b)
  {
    if w == [] { return [], 0, 0; }
    var w', e := w[..|w| - 1], w[|w| - 1];
    assert w == w' + [e];
    assert InState(w, nmt)[..|w| - 1] == InState(w', nmt);
    cs, a, b := ErrorFreeIsExplained(w', nmt);
    cs, a, b := ExplainedStep(Run(NonCyclic, InState(w', nmt)).0, w', e, cs, a, b);
  }

  lemma {:induction false} RepeatedFrames(s: CycleState, e: CycleEvent, n: nat, nmt: NmtState)
    requires IsCyclic(nmt) && CyclicStep(s, e) == (s, [])
    ensures Run(s, InState(Repeat(e, n), nmt)) == (s, [])
  {
    if n == 0 {
      assert InState(Repeat(e, n), nmt) == [];
    } else {
      RepeatedFrames(s, e, n - 1, nmt);
      assert InState(Repeat(e, n), nmt) == InState(Repeat(e, n - 1), nmt) + [Input(e, nmt)];
      RunSnoc(s, InState(Repeat(e, n - 1), nmt), Input(e, nmt));
      assert Step(s, e, nmt) == (s, []);
      var none: seq<DllError> := [];
      assert none + none == none;
    }
  }

  lemma InStateConcat(v: seq<CycleEvent>, w: seq<CycleEvent>, nmt: NmtState)
    ensures InState(v + w, nmt) == InState(v, nmt) + InState(w, nmt)
  {}

  lemma RunPiece(s: CycleState, v: seq<CycleEvent>, w: seq<CycleEvent>, nmt: NmtState)
    ensures Run(s, InState(v + w, nmt)) ==
            var (s1, errs1) := Run(s, InState(v, nmt));
            var (s2, errs2) := Run(s1, InState(w, nmt));
            (s2, errs1 + errs2)
  {
    InStateConcat(v, w, nmt);
    RunConcat(s, InState(v, nmt), InState(w, nmt));
  }

  lemma RunOne(s: CycleState, e: CycleEvent, nmt: NmtState)
    requires IsCyclic(nmt)
    ensures Run(s, InState([e], nmt)) == CyclicStep(s, e)
  {
    assert InState([e], nmt) == [Input(e, nmt)];
    assert [Input(e, nmt)][..0] == [];
    assert [] + CyclicStep(s, e).1 == CyclicStep(s, e).1;
  }

  /** A complete cycle that starts where a SoC is welcome reports nothing and ends in WaitSoc. */
  lemma OneCycleIsErrorFree(s: CycleState, c: Shape, nmt: NmtState)
    requires IsCyclic(nmt) && (s.NonCyclic? || s.WaitSoc?)
    ensures Run(s, InState(OneCycle(c), nmt)) == (WaitSoc, [])
  {
    var p1 := [Soc] + Repeat(Pres, c.before);
    var p2 := p1 + [Preq];
    var p3 := p2 + Repeat(Pres, c.after);
    var p4 := p3 + [Soa];
    RunOne(s, Soc, nmt);
    RepeatedFrames(WaitPreq, Pres, c.before, nmt);
    RunPiece(s, [Soc], Repeat(Pres, c.before), nmt);
    RunOne(WaitPreq, Preq, nmt);
    RunPiece(s, p1, [Preq], nmt);
    RepeatedFrames(WaitSoa, Pres, c.after, nmt);
    RunPiece(s, p2, Repeat(Pres, c.after), nmt);
    RunOne(WaitSoa, Soa, nmt);
    RunPiece(s, p3, [Soa], nmt);
    RepeatedFrames(WaitSoc, Asnd, c.asnds, nmt);
    RunPiece(s, p4, Repeat(Asnd, c.asnds), nmt);
  }

  lemma {:induction false} CyclesAreErrorFree(cs: seq<Shape>, nmt: NmtState)
    requires IsCyclic(nmt)
    ensures Run(NonCyclic, InState(Cycles(cs), nmt)).1 == []
    ensures Run(NonCyclic, InState(Cycles(cs), nmt)).0 == if cs == [] then NonCyclic else WaitSoc
  {
    if cs != [] {
      CyclesAreErrorFree(cs[..|cs| - 1], nmt);
      var s := Run(NonCyclic, InState(Cycles(cs[..|cs| - 1]), nmt)).0;
      OneCycleIsErrorFree(s, cs[|cs| - 1], nmt);
      RunPiece(NonCyclic, Cycles(cs[..|cs| - 1]), OneCycle(cs[|cs| - 1]), nmt);
    }
  }

  /** What an error-free run has seen extends to whole cycles. */
  lemma ExplainedIsPrefix(s: CycleState, w: seq<CycleEvent>, cs: seq<Shape>, a: nat, b: nat)
    requires Explains(s, w, cs, a, b)
    ensures InLanguage(w)
  {
    var c := Shape(a, b, 0);
    OneMoreCycle(cs, c);
    OneCycleWithoutAsnd(a, b, Cycles(cs));
    match s {
      case NonCyclic => assert w <= Cycles([]);
      case WaitSoc => assert w <= Cycles(cs);
      case WaitPreq => assert w <= Cycles(cs + [c]);
      case WaitSoa => assert w <= Cycles(cs + [c]);
    }
  }

  lemma PrefixIsErrorFree(w: seq<CycleEvent>, cs: seq<Shape>, nmt: NmtState)
    requires IsCyclic(nmt) && w <= Cycles(cs)
    ensures Run(NonCyclic, InState(w, nmt)).1 == []
  {
    CyclesAreErrorFree(cs, nmt);
    var rest := Cycles(cs)[|w|..];
    assert Cycles(cs) == w + rest;
    RunPiece(NonCyclic, w, rest, nmt);
  }

  lemma ErrorFreeInOneState(w: seq<CycleEvent>, nmt: NmtState)
    requires IsCyclic(nmt)
    ensures Run(NonCyclic, InState(w, nmt)).1 == [] <==> InLanguage(w)
  {
    if Run(NonCyclic, InState(w, nmt)).1 == [] {
      var cs, a, b := ErrorFreeIsExplained(w, nmt);
      ExplainedIsPrefix(Run(NonCyclic, InState(w, nmt)).0, w, cs, a, b);
    }
    if InLanguage(w) {
      var cs: seq<Shape> :| w <= Cycles(cs);
      PrefixIsErrorFree(w, cs, nmt);
    }
  }

  /** The events of a run without the NMT states. */
  function Events(w: seq<Input>): (r: seq<CycleEvent>)
    ensures |r| == |w|
  {
    seq(|w|, k requires 0 <= k < |w| => w[k].event)
  }

  predicate StaysCyclic(w: seq<Input>) { forall k :: 0 <= k < |w| ==> IsCyclic(w[k].nmt) }

  /** Inside the cyclic NMT states it does not matter in which of them the node is. */
  lemma {:induction false} AnyCyclicState(s: CycleState, w: seq<Input>, nmt: NmtState)
    requires StaysCyclic(w) && IsCyclic(nmt)
    ensures Run(s, w) == Run(s, InState(Events(w), nmt))
  {
    if w != [] {
      var k := |w| - 1;
      AnyCyclicState(s, w[..k], nmt);
      assert InState(Events(w), nmt)[..k] == InState(Events(w[..k]), nmt);
    }
  }

  /**
   * A run from NonCyclic that moves in any way between the cyclic NMT states reports no error if
   * and only if its events are a prefix of a word of (Soc Pres* Preq Pres* Soa Asnd*)*.
   */
  lemma {:induction false} ErrorFreeLanguage(w: seq<Input>)
    requires StaysCyclic(w)
    ensures Run(NonCyclic, w).1 == [] <==> InLanguage(Events(w))
  {
    AnyCyclicState(NonCyclic, w, Operational);
    ErrorFreeInOneState(Events(w), Operational);
  }

  // ---- Accounting for started cycles ----

  predicate Open(s: CycleState) { s.WaitPreq? || s.WaitSoa? }

  /** How often p holds of (state before, input) along a run. */
  ghost function Tally(s: CycleState, w: seq<Input>, p: (CycleState, Input) -> bool): nat {
    if w == [] then 0
    else
      var w', i := w[..|w| - 1], w[|w| - 1];
      Tally(s, w', p) + if p(Run(s, w').0, i) then 1 else 0
  }

  function CountLossOfSoa(errors: seq<DllError>): nat {
    if errors == [] then 0
    else CountLossOfSoa(errors[..|errors| - 1]) + if errors[|errors| - 1] == LossOfSoa then 1 else 0
  }

  lemma {:induction false} CountConcat(a: seq<DllError>, b: seq<DllError>)
    ensures CountLossOfSoa(a + b) == CountLossOfSoa(a) + CountLossOfSoa(b)
  {
    if b == [] {
      assert a + b == a;
    } else {
      CountConcat(a, b[..|b| - 1]);
      assert (a + b)[..|a + b| - 1] == a + b[..|b| - 1];
    }
  }

  predicate CycleStarted(s: CycleState, i: Input) { IsCyclic(i.nmt) && i.event == Soc }
  predicate StrayAsnd(s: CycleState, i: Input) { IsCyclic(i.nmt) && i.event == Asnd && Open(s) }
  predicate CycleClosed(s: CycleState, i: Input) { IsCyclic(i.nmt) && i.event == Soa && Open(s) }
  predicate CycleAbandoned(s: CycleState, i: Input) { !IsCyclic(i.nmt) && Open(s) }

  lemma SmallCounts()
    ensures CountLossOfSoa([]) == 0
    ensures forall e: DllError {:trigger CountLossOfSoa([e])} ::
              CountLossOfSoa([e]) == if e == LossOfSoa then 1 else 0
    ensures CountLossOfSoa([LossOfSoc, LossOfSoa]) == 1
  {
    forall e: DllError ensures CountLossOfSoa([e]) == if e == LossOfSoa then 1 else 0 {
      assert [e][..0] == [];
    }
    assert [LossOfSoc, LossOfSoa][..1] == [LossOfSoc];
  }

  function Count(b: bool): nat { if b then 1 else 0 }

  /** The balance of one step. */
  lemma {:induction false} StepBalances(s: CycleState, i: Input)
    ensures var (s', errs) := Step(s, i.event, i.nmt);
            Count(CycleStarted(s, i)) + Count(StrayAsnd(s, i)) + Count(Open(s))
            == Count(CycleClosed(s, i)) + CountLossOfSoa(errs) + Count(CycleAbandoned(s, i)) + Count(Open(s'))
  {
    SmallCounts();
  }

  lemma {:induction false} TallySnoc(s: CycleState, w: seq<Input>, p: (CycleState, Input) -> bool)
    requires w != []
    ensures Tally(s, w, p) == Tally(s, w[..|w| - 1], p) + Count(p(Run(s, w[..|w| - 1]).0, w[|w| - 1]))
  {}

  /**
   * Every started cycle is accounted for, in every run through any NMT states: a SoC or a stray
   * ASnd is matched by a SoA that closes the cycle, a reported loss of SoA, the node leaving
   * the cyclic states, or the one cycle still open.
   */
  lemma {:induction false} CycleAccounting(w: seq<Input>)
    ensures Tally(NonCyclic, w, CycleStarted) + Tally(NonCyclic, w, StrayAsnd)
         == Tally(NonCyclic, w, CycleClosed) + CountLossOfSoa(Run(NonCyclic, w).1)
            + Tally(NonCyclic, w, CycleAbandoned) + Count(Open(Run(NonCyclic, w).0))
  {
    if w != [] {
      var w', i := w[..|w| - 1], w[|w| - 1];
      CycleAccounting(w');
      var (s, errs) := Run(NonCyclic, w');
      CountConcat(errs, Step(s, i.event, i.nmt).1);
      StepBalances(s, i);
      TallySnoc(NonCyclic, w, CycleStarted);
      TallySnoc(NonCyclic, w, StrayAsnd);
      TallySnoc(NonCyclic, w, CycleClosed);
      TallySnoc(NonCyclic, w, CycleAbandoned);
    }
  }

  lemma {:induction false} NoAbandonedCycles(w: seq<Input>)
    requires StaysCyclic(w)
    ensures Tally(NonCyclic, w, CycleAbandoned) == 0
  {
    if w != [] { NoAbandonedCycles(w[..|w| - 1]); }
  }

  /** The law without the abandoned cycles, for runs that stay inside the cyclic NMT states. */
  lemma CycleAccountingCyclic(w: seq<Input>)
    requires StaysCyclic(w)
    ensures Tally(NonCyclic, w, CycleStarted) + Tally(NonCyclic, w, StrayAsnd)
         == Tally(NonCyclic, w, CycleClosed) + CountLossOfSoa(Run(NonCyclic, w).1)
            + Count(Open(Run(NonCyclic, w).0))
  {
    CycleAccounting(w);
    NoAbandonedCycles(w);
  }

  /** The frames behind a SoC that complete its cycle, and any whole cycles after it. */
  lemma {:induction false} RestOfCycles(c: Shape, cs: seq<Shape>, nmt: NmtState)
    requires IsCyclic(nmt)
    ensures Run(WaitPreq, InState(OneCycle(c)[1..] + Cycles(cs), nmt)) == (WaitSoc, [])
  {
    OneCycleIsErrorFree(NonCyclic, c, nmt);
    assert OneCycle(c) == [Soc] + OneCycle(c)[1..];
    RunPiece(NonCyclic, [Soc], OneCycle(c)[1..], nmt);
    RunOne(NonCyclic, Soc, nmt);
    CyclesFromWaitSoc(cs, nmt);
    RunPiece(WaitPreq, OneCycle(c)[1..], Cycles(cs), nmt);
  }

  lemma {:induction false} CyclesFromWaitSoc(cs: seq<Shape>, nmt: NmtState)
    requires IsCyclic(nmt)
    ensures Run(WaitSoc, InState(Cycles(cs), nmt)) == (WaitSoc, [])
  {
    if cs != [] {
      CyclesFromWaitSoc(cs[..|cs| - 1], nmt);
      OneCycleIsErrorFree(WaitSoc, cs[|cs| - 1], nmt);
      RunPiece(WaitSoc, Cycles(cs[..|cs| - 1]), OneCycle(cs[|cs| - 1]), nmt);
    }
  }

  /**
   * Whatever happened before, in any NMT states, after the next SoC the machine is in step again:
   * the frames that then complete a cycle, and all cycles after it, are taken without a further report
   * while the node stays in the cyclic states.
   */
  lemma {:induction false} Resynchronises(w: seq<Input>, nmt: NmtState, rest: seq<Input>, c: Shape, cs: seq<Shape>)
    requires IsCyclic(nmt) && StaysCyclic(rest) && Events(rest) == OneCycle(c)[1..] + Cycles(cs)
    ensures Run(Run(NonCyclic, w + [Input(Soc, nmt)]).0, rest) == (WaitSoc, [])
  {
    RunSnoc(NonCyclic, w, Input(Soc, nmt));
    assert CyclicStep(Run(NonCyclic, w).0, Soc).0 == WaitPreq;
    AnyCyclicState(WaitPreq, rest, nmt);
    RestOfCycles(c, cs, nmt);
  }

  // ---- Every kind of report, and every state, told from the events ----

  /** What a step reports as lost, kind by kind. */
  predicate Loses(s: CycleState, e: CycleEvent, error: DllError) {
    match error
    case LossOfSoc =>
      || (s.WaitSoc? && !e.Soc? && !e.Asnd?)
      || (s.WaitSoa? && (e.Preq? || e.SocTimeout?))
      || (s.WaitPreq? && e.SocTimeout?)
    case LossOfSoa => Open(s) && (e.Soc? || e.Asnd? || e.SocTimeout? || (s.WaitSoa? && e.Preq?))
    case LossOfPreq => s.WaitPreq? && e.Soa?
    case UnexpectedEvent(s', e') => s.NonCyclic? && !e.Soc? && s' == s && e' == e
  }

  /** A step reports exactly what it loses, a lost SoC first. */
  lemma {:induction false} ReportsExactly(s: CycleState, e: CycleEvent, error: DllError)
    ensures error in CyclicStep(s, e).1 <==> Loses(s, e, error)
    ensures |CyclicStep(s, e).1| <= 2
    ensures |CyclicStep(s, e).1| == 2 ==> CyclicStep(s, e).1 == [LossOfSoc, LossOfSoa]
  {}

  /** How often an error is in a list. */
  function CountOf(errors: seq<DllError>, error: DllError): nat {
    if errors == [] then 0
    else CountOf(errors[..|errors| - 1], error) + Count(errors[|errors| - 1] == error)
  }

  lemma {:induction false} CountOfConcat(a: seq<DllError>, b: seq<DllError>, error: DllError)
    ensures CountOf(a + b, error) == CountOf(a, error) + CountOf(b, error)
  {
    if b == [] {
      assert a + b == a;
    } else {
      CountOfConcat(a, b[..|b| - 1], error);
      assert (a + b)[..|a + b| - 1] == a + b[..|b| - 1];
    }
  }

  lemma {:induction false} CountOfOne(e: DllError, error: DllError)
    ensures CountOf([e], error) == Count(e == error)
  {
    assert [e][..0] == [];
  }

  lemma {:induction false} CountOfStep(s: CycleState, i: Input, error: DllError)
    ensures CountOf(Step(s, i.event, i.nmt).1, error) == Count(IsCyclic(i.nmt) && Loses(s, i.event, error))
  {
    ReportsExactly(s, i.event, error);
    var errors := Step(s, i.event, i.nmt).1;
    if |errors| == 1 {
      assert errors == [errors[0]];
      CountOfOne(errors[0], error);
    } else if |errors| == 2 {
      assert errors == [LossOfSoc] + [LossOfSoa];
      CountOfConcat([LossOfSoc], [LossOfSoa], error);
      CountOfOne(LossOfSoc, error);
      CountOfOne(LossOfSoa, error);
    }
  }

  /** The steps of a run that lose something. */
  function Losing(error: DllError): (CycleState, Input) -> bool {
    (s: CycleState, i: Input) => IsCyclic(i.nmt) && Loses(s, i.event, error)
  }

  /** In every run each error is reported exactly as often as a step loses it. */
  lemma {:induction false} ReportsCounted(w: seq<Input>, error: DllError)
    ensures CountOf(Run(NonCyclic, w).1, error) == Tally(NonCyclic, w, Losing(error))
  {
    TallyIsCount(w, error, Losing(error));
  }

  lemma {:induction false} TallyIsCount(w: seq<Input>, error: DllError, p: (CycleState, Input) -> bool)
    requires forall s: CycleState, i: Input :: p(s, i) == (IsCyclic(i.nmt) && Loses(s, i.event, error))
    ensures CountOf(Run(NonCyclic, w).1, error) == Tally(NonCyclic, w, p)
  {
    if w != [] {
      var w', i := w[..|w| - 1], w[|w| - 1];
      TallyIsCount(w', error, p);
      var (s, errs) := Run(NonCyclic, w');
      CountOfConcat(errs, Step(s, i.event, i.nmt).1, error);
      CountOfStep(s, i, error);
      TallySnoc(NonCyclic, w, p);
    }
  }

  /** Frames that a running cycle lets pass. */
  predicate Passes(e: CycleEvent) { e.Pres? || e.Asnd? }

  /** From position k on, exclusively, only such frames have come. */
  ghost predicate OnlyPassesFrom(w: seq<Input>, k: int) {
    forall j :: 0 <= j < |w| && k < j ==> Passes(w[j].event)
  }

  /** A SoC has come, and since then only frames that pass. */
  ghost predicate CycleBegun(w: seq<Input>) {
    exists k: nat :: k < |w| && w[k].event == Soc && OnlyPassesFrom(w, k)
  }

  /** The cycle was begun when a PReq came, and since then only frames that pass. */
  ghost predicate RequestSeen(w: seq<Input>) {
    exists k: nat :: k < |w| && w[k].event == Preq && CycleBegun(w[..k]) && OnlyPassesFrom(w, k)
  }

  ghost predicate SocSeen(w: seq<Input>) { exists k: nat :: k < |w| && w[k].event == Soc }

  /** The state that belongs to what has come. */
  ghost predicate StateFits(s: CycleState, w: seq<Input>) {
    && (s.WaitPreq? <==> CycleBegun(w))
    && (s.WaitSoa? <==> RequestSeen(w))
    && (s.NonCyclic? <==> !SocSeen(w))
  }

  lemma {:induction false} BegunSnoc(w: seq<Input>, i: Input)
    ensures CycleBegun(w + [i]) <==> i.event == Soc || (Passes(i.event) && CycleBegun(w))
  {
    var w' := w + [i];
    assert w'[|w|] == i;
    if i.event == Soc { assert OnlyPassesFrom(w', |w|); }
    if Passes(i.event) && CycleBegun(w) {
      var k: nat :| k < |w| && w[k].event == Soc && OnlyPassesFrom(w, k);
      assert w'[k].event == Soc && OnlyPassesFrom(w', k);
    }
    if k: nat :| k < |w'| && w'[k].event == Soc && OnlyPassesFrom(w', k) {
      if k < |w| {
        assert Passes(w'[|w|].event);
        assert forall j :: 0 <= j < |w| ==> w[j] == w'[j];
        assert w[k].event == Soc && OnlyPassesFrom(w, k);
      }
    }
  }

  lemma {:induction false} RequestSnoc(w: seq<Input>, i: Input)
    ensures RequestSeen(w + [i]) <==>
              (i.event == Preq && CycleBegun(w)) || (Passes(i.event) && RequestSeen(w))
  {
    var w' := w + [i];
    assert w'[|w|] == i && w'[..|w|] == w;
    if i.event == Preq && CycleBegun(w) { assert OnlyPassesFrom(w', |w|); }
    if Passes(i.event) && RequestSeen(w) {
      var k: nat :| k < |w| && w[k].event == Preq && CycleBegun(w[..k]) && OnlyPassesFrom(w, k);
      assert w'[..k] == w[..k] && w'[k].event == Preq && OnlyPassesFrom(w', k);
    }
    if k: nat :| k < |w'| && w'[k].event == Preq && CycleBegun(w'[..k]) && OnlyPassesFrom(w', k) {
      if k < |w| {
        assert Passes(w'[|w|].event);
        assert forall j :: 0 <= j < |w| ==> w[j] == w'[j];
        assert w'[..k] == w[..k] && w[k].event == Preq && OnlyPassesFrom(w, k);
      }
    }
  }

  lemma {:induction false} SocSnoc(w: seq<Input>, i: Input)
    ensures SocSeen(w + [i]) <==> i.event == Soc || SocSeen(w)
  {
    assert (w + [i])[|w|] == i;
    if k: nat :| k < |w| && w[k].event == Soc { assert (w + [i])[k].event == Soc; }
  }

  /**
   * In every run inside the cyclic NMT states the state is told by the events alone: WaitPreq while only PRes and
   * ASnd have come since a SoC, WaitSoa while only these have come since a PReq in such a cycle, NonCyclic before the
   * first SoC, and WaitSoc otherwise.
   */
  lemma {:induction false} StateExactly(w: seq<Input>)
    requires StaysCyclic(w)
    ensures StateFits(Run(NonCyclic, w).0, w)
  {
    if w != [] {
      var w', i := w[..|w| - 1], w[|w| - 1];
      StateExactly(w');
      assert w == w' + [i];
      BegunSnoc(w', i);
      RequestSnoc(w', i);
      SocSnoc(w', i);
    }
  }
}
