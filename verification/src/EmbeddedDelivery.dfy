/**
 * Exactly which requests an embedded SDO server executes over a channel that loses nothing
 * (EPSG DS 301, section 6.3.3.1), idle containers and requests that do not fit included.
 */
module EmbeddedDelivery {
  import opened Wrappers
  import opened Bytes
  import opened ObjectDictionaries
  import opened EmbeddedCodec
  import opened EmbeddedChannel
  import Server = EmbeddedServers
  import Client = EmbeddedClients

  // ---- A channel that loses nothing ----

  /** Every container arrives, in order, once or more. */
  ghost predicate Lossless(arrivals: seq<nat>, n: nat) {
    && InOrder(arrivals, n)
    && (forall k :: 0 <= k < |arrivals| - 1 ==> arrivals[k + 1] <= arrivals[k] + 1)
    && if n == 0 then arrivals == [] else arrivals != [] && arrivals[0] == 0 && arrivals[|arrivals| - 1] == n - 1
  }

  /** The server after the first n containers, each received once. */
  function Deliver(r: Receiver, sent: seq<Container>, n: nat): Receiver
    requires n <= |sent|
  {
    if n == 0 then r else Receive(Deliver(r, sent, n - 1), sent, n - 1)
  }

  /** Receiving a container again changes nothing. */
  lemma ReceiveAgain(r: Receiver, sent: seq<Container>, at: nat)
    requires at < |sent|
    ensures Receive(Receive(r, sent, at), sent, at) == Receive(r, sent, at)
  {}

  lemma {:induction false} RepeatsDoNotMatter(r: Receiver, sent: seq<Container>, arrivals: seq<nat>)
    requires InOrder(arrivals, |sent|) && arrivals != [] && arrivals[0] == 0
    requires forall k :: 0 <= k < |arrivals| - 1 ==> arrivals[k + 1] <= arrivals[k] + 1
    ensures RunServer(r, sent, arrivals) == Deliver(r, sent, arrivals[|arrivals| - 1] + 1)
  {
    var k := |arrivals| - 1;
    var at := arrivals[k];
    if k == 0 {
      assert arrivals[..0] == [];
    } else {
      RepeatsDoNotMatter(r, sent, arrivals[..k]);
      if arrivals[k - 1] == at { ReceiveAgain(Deliver(r, sent, at), sent, at); }
    }
  }

  lemma {:induction false} LosslessDelivers(r: Receiver, sent: seq<Container>, arrivals: seq<nat>)
    requires Lossless(arrivals, |sent|)
    ensures RunServer(r, sent, arrivals) == Deliver(r, sent, |sent|)
  {
    if sent != [] { RepeatsDoNotMatter(r, sent, arrivals); }
  }

  /** Zeros that are long enough to decode: they carry number 0. */
  predicate ReadsAsZero(c: Container) { !c.cargo.Carried? && 8 <= |c.bytes| }

  /** How the lag moves when a container arrives after m requests. */
  function LagStep(c: Container, start: u8, m: nat, d: nat): (d': nat)
    requires d < 64
    ensures d' < 64
  {
    var taken := (start + m + d) % 64 == 0 && ReadsAsZero(c);
    match c.cargo
    case Carried(_) => if d == 0 then 0 else d - 1
    case Dropped(_) => if taken then d else (d + 63) % 64
    case Nothing => if taken then (d + 1) % 64 else d
  }

  /**
   * How many requests the server still lets pass before it executes one, when n containers have
   * arrived; 0 means that it waits for the next request. Zeros count as a request numbered 0.
   */
  function Lag(serverLast: u8, start: u8, sent: seq<Container>, n: nat): (d: nat)
    requires n <= |sent|
    ensures d < 64
  {
    if n == 0 then (serverLast + 1 - start) % 64
    else LagStep(sent[n - 1], start, Taken(sent, n - 1), Lag(serverLast, start, sent, n - 1))
  }

  /** Which containers are executed, in terms of the lag. */
  predicate DueWith(c: Container, start: u8, m: nat, d: nat) {
    if c.cargo.Carried? then d == 0 else ReadsAsZero(c) && (start + m + d) % 64 == 0
  }

  predicate IsDue(serverLast: u8, start: u8, sent: seq<Container>, p: nat)
    requires p < |sent|
  {
    DueWith(sent[p], start, Taken(sent, p), Lag(serverLast, start, sent, p))
  }

  lemma IdleDecodes(len: nat)
    ensures Decode(Zeros(len)).Ok? <==> len >= 8
    ensures len >= 8 ==> Decode(Zeros(len)).value.sequence == 0 && Decode(Zeros(len)).value.commandId.Nil?
  {
    if len >= 8 {
      SpanValues();
      assert Zeros(len)[5..7] == [0, 0];
    }
  }

  /** Idle containers are executed by exactly the servers that wait for number 0, if they are long enough to decode. */
  lemma IdleExecutes(server: Server.ServerConn, len: nat)
    ensures Server.Executes(server, Zeros(len)) <==> len >= 8 && server.lastSequence % 64 == 63
  {
    IdleDecodes(len);
  }

  /** The number that the server waits for is the number of the request that the lag points at. */
  ghost predicate Lagging(last: u8, start: u8, taken: nat, d: nat) {
    last < 64 && d < 64 && (last + 1) % 64 == (start + taken + d) % 64
  }

  /** Equal remainders stay equal when something is added. */
  lemma Congruent(a: nat, b: nat, c: nat)
    requires a % 64 == b % 64
    ensures (a + c) % 64 == (b + c) % 64
  {}

  /** A request meets the number waited for exactly when the lag is 0; either way the lag follows. */
  lemma NumberMeets(last: u8, start: u8, taken: nat, d: nat)
    requires Lagging(last, start, taken, d)
    ensures var number := (start + taken) % 64;
            && (number != last && number == (last + 1) % 64 <==> d == 0)
            && Lagging(if d == 0 then number else last, start, taken + 1, if d == 0 then 0 else d - 1)
  {
    if d == 0 { Congruent(start + taken, (start + taken) % 64, 1); }
  }

  /** The same for zeros, with and without a request taken for them. */
  lemma ZeroMeets(last: u8, start: u8, taken: nat, d: nat)
    requires Lagging(last, start, taken, d)
    ensures var zero := (start + taken + d) % 64 == 0;
            && (0 != last && 0 == (last + 1) % 64 <==> zero)
            && Lagging(if zero then 0 else last, start, taken, if zero then (d + 1) % 64 else d)
            && Lagging(if zero then 0 else last, start, taken + 1, if zero then d else (d + 63) % 64)
            && Lagging(last, start, taken + 1, (d + 63) % 64)
  {}

  /** The number in a container, if it decodes. */
  function NumberOf(c: Container): Option<u8> {
    if Decode(c.bytes).Ok? then Some(Decode(c.bytes).value.sequence) else None
  }

  function ExpectedNumber(c: Container, start: u8, m: nat): Option<u8> {
    if c.cargo.Carried? then Some((start + m) % 64) else if 8 <= |c.bytes| then Some(0) else None
  }

  lemma {:induction false} NumberAsExpected(c: Container, start: u8, requests: seq<Client.Request>, m: nat)
    requires CargoSound(c, start, requests, m)
    ensures NumberOf(c) == ExpectedNumber(c, start, m)
  {
    if !c.cargo.Carried? { IdleDecodes(|c.bytes|); }
  }

  predicate Meets(last: u8, number: Option<u8>) {
    number.Some? && number.value != last && number.value == (last + 1) % 64
  }

  function LastAfter(last: u8, numbers: seq<Option<u8>>, n: nat): u8
    requires n <= |numbers|
  {
    if n == 0 then last
    else
      var before := LastAfter(last, numbers, n - 1);
      if Meets(before, numbers[n - 1]) then numbers[n - 1].value else before
  }

  lemma {:induction false} ReceiveByNumber(r: Receiver, sent: seq<Container>, at: nat)
    requires at < |sent|
    ensures var r', meets := Receive(r, sent, at), Meets(r.conn.lastSequence, NumberOf(sent[at]));
            && (Server.Executes(r.conn, sent[at].bytes) <==> meets)
            && r'.conn.lastSequence == (if meets then NumberOf(sent[at]).value else r.conn.lastSequence)
            && r'.executed == (if meets then r.executed + [at] else r.executed)
  {}

  lemma {:induction false} DeliverByNumber(r: Receiver, sent: seq<Container>, numbers: seq<Option<u8>>, n: nat)
    requires n <= |sent| == |numbers| && forall p :: 0 <= p < |sent| ==> numbers[p] == NumberOf(sent[p])
    ensures Deliver(r, sent, n).conn.lastSequence == LastAfter(r.conn.lastSequence, numbers, n)
  {
    if n > 0 {
      DeliverByNumber(r, sent, numbers, n - 1);
      ReceiveByNumber(Deliver(r, sent, n - 1), sent, n - 1);
    }
  }

  lemma {:induction false} ExecutedByNumber(r: Receiver, sent: seq<Container>, numbers: seq<Option<u8>>, n: nat, p: nat)
    requires n <= |sent| == |numbers| && forall q :: 0 <= q < |sent| ==> numbers[q] == NumberOf(sent[q])
    requires r.executed == []
    ensures p in Deliver(r, sent, n).executed <==>
              p < n && Meets(LastAfter(r.conn.lastSequence, numbers, p), numbers[p])
  {
    if n > 0 {
      ExecutedByNumber(r, sent, numbers, n - 1, p);
      DeliverByNumber(r, sent, numbers, n - 1);
      ExecutedStep(Deliver(r, sent, n - 1), sent, n - 1, p);
    }
  }

  /** What one more container adds to the executed positions. */
  lemma {:induction false} ExecutedStep(r: Receiver, sent: seq<Container>, at: nat, p: nat)
    requires at < |sent|
    ensures p in Receive(r, sent, at).executed <==>
              p in r.executed || (p == at && Meets(r.conn.lastSequence, NumberOf(sent[at])))
  {
    ReceiveByNumber(r, sent, at);
    LastExecuted(r.executed, Receive(r, sent, at).executed, at, p);
  }

  lemma LastExecuted(executed: seq<nat>, executed': seq<nat>, at: nat, p: nat)
    requires executed' == executed || executed' == executed + [at]
    ensures p in executed' <==> p in executed || (executed' == executed + [at] && p == at)
  {}

  /** A number is met exactly when its container is due, and the lag follows. */
  lemma {:induction false} NumberStep(last: u8, c: Container, start: u8, m: nat, d: nat)
    requires Lagging(last, start, m, d)
    ensures var number := ExpectedNumber(c, start, m);
            && (Meets(last, number) <==> DueWith(c, start, m, d))
            && Lagging(if Meets(last, number) then number.value else last, start,
                       if c.cargo.Nothing? then m else m + 1, LagStep(c, start, m, d))
  {
    if c.cargo.Carried? { NumberMeets(last, start, m, d); } else { ZeroMeets(last, start, m, d); }
  }

  /** Each number is the one that belongs to its container. */
  ghost predicate NumbersFit(numbers: seq<Option<u8>>, start: u8, sent: seq<Container>) {
    |numbers| == |sent|
    && forall p :: 0 <= p < |sent| ==> numbers[p] == ExpectedNumber(sent[p], start, Taken(sent, p))
  }

  lemma {:induction false} NumbersLag(last: u8, start: u8, sent: seq<Container>, numbers: seq<Option<u8>>, n: nat)
    requires start < 64 && last < 64 && n <= |sent| && NumbersFit(numbers, start, sent)
    ensures Lagging(LastAfter(last, numbers, n), start, Taken(sent, n), Lag(last, start, sent, n))
  {
    if n == 0 {
      StartLags(last, start);
    } else {
      NumbersLag(last, start, sent, numbers, n - 1);
      NumbersLagStep(last, start, sent, numbers, n - 1);
    }
  }

  lemma {:induction false} NumbersLagStep(last: u8, start: u8, sent: seq<Container>, numbers: seq<Option<u8>>, n: nat)
    requires n < |sent| && NumbersFit(numbers, start, sent)
    requires Lagging(LastAfter(last, numbers, n), start, Taken(sent, n), Lag(last, start, sent, n))
    ensures Lagging(LastAfter(last, numbers, n + 1), start, Taken(sent, n + 1), Lag(last, start, sent, n + 1))
  {
    NumberStep(LastAfter(last, numbers, n), sent[n], start, Taken(sent, n), Lag(last, start, sent, n));
    assert numbers[n] == ExpectedNumber(sent[n], start, Taken(sent, n));
  }

  lemma StartLags(last: u8, start: u8)
    requires last < 64 && start < 64
    ensures Lagging(last, start, 0, (last + 1 - start) % 64)
  {}

  /** The positions executed of all containers are those that are due. */
  lemma {:induction false} ExecutedAreDue(r: Receiver, s: Sender, start: u8, p: nat)
    requires start < 64 && r.conn.lastSequence < 64 && r.executed == [] && SenderSound(s, start)
    ensures p in Deliver(r, s.sent, |s.sent|).executed <==>
              p < |s.sent| && IsDue(r.conn.lastSequence, start, s.sent, p)
  {
    var numbers := seq(|s.sent|, q requires 0 <= q < |s.sent| => NumberOf(s.sent[q]));
    forall q | 0 <= q < |s.sent| ensures numbers[q] == ExpectedNumber(s.sent[q], start, Taken(s.sent, q)) {
      assert CargoSound(s.sent[q], start, s.requests, Taken(s.sent, q));
      NumberAsExpected(s.sent[q], start, s.requests, Taken(s.sent, q));
    }
    ExecutedByNumber(r, s.sent, numbers, |s.sent|, p);
    if p < |s.sent| {
      NumbersLag(r.conn.lastSequence, start, s.sent, numbers, p);
      NumberStep(LastAfter(r.conn.lastSequence, numbers, p), s.sent[p], start,
                 Taken(s.sent, p), Lag(r.conn.lastSequence, start, s.sent, p));
    }
  }

  // ---- When a request is executed, told from the containers alone ----

  ghost predicate AllFit(sent: seq<Container>) { forall p :: 0 <= p < |sent| ==> !sent[p].cargo.Dropped? }

  /** Among the first n containers are zeros that were sent when just m requests had been taken. */
  ghost predicate ZeroAt(sent: seq<Container>, n: nat, m: nat)
    requires n <= |sent|
  {
    exists p :: 0 <= p < n && ReadsAsZero(sent[p]) && Taken(sent, p) == m
  }

  /** The same for at most m requests. */
  ghost predicate ZeroUpTo(sent: seq<Container>, n: nat, m: nat)
    requires n <= |sent|
  {
    exists p :: 0 <= p < n && ReadsAsZero(sent[p]) && Taken(sent, p) <= m
  }

  /** The first request that is executed: the one with the number waited for, unless zeros come first. */
  ghost function First(serverLast: u8, start: u8, sent: seq<Container>, n: nat): nat
    requires n <= |sent|
  {
    var f := (serverLast + 1 - start) % 64;
    if serverLast == 63 && ZeroUpTo(sent, n, f) then if f == 63 && ZeroAt(sent, n, 0) then 0 else f + 1 else f
  }

  /** Number 0 has gone to zeros sent between request k and the one before it. */
  ghost predicate Swallowed(sent: seq<Container>, n: nat, start: u8, k: nat)
    requires n <= |sent|
  {
    (start + k) % 64 == 0 && ZeroAt(sent, n, k)
  }

  lemma {:induction false} ZeroStep(sent: seq<Container>, n: nat, m: nat)
    requires n < |sent|
    ensures ZeroAt(sent, n + 1, m) <==> ZeroAt(sent, n, m) || (ReadsAsZero(sent[n]) && Taken(sent, n) == m)
    ensures ZeroUpTo(sent, n + 1, m) <==> ZeroUpTo(sent, n, m) || (ReadsAsZero(sent[n]) && Taken(sent, n) <= m)
    ensures m > Taken(sent, n) ==> !ZeroAt(sent, n, m)
    ensures ZeroAt(sent, n, m) ==> ZeroUpTo(sent, n, m)
  {
    if ReadsAsZero(sent[n]) && Taken(sent, n) == m { assert ZeroAt(sent, n + 1, m); }
    if ReadsAsZero(sent[n]) && Taken(sent, n) <= m { assert ZeroUpTo(sent, n + 1, m); }
    if ZeroAt(sent, n, m) {
      var p :| 0 <= p < n && ReadsAsZero(sent[p]) && Taken(sent, p) == m;
      TakenMonotone(sent, p, n);
    }
  }

  /** The lag when m requests have been taken, first is executed first, and zeros may have come since request m - 1. */
  function ClosedLag(start: u8, m: nat, first: nat, zero: bool): nat {
    if m < first then first - m else if (start + m) % 64 == 0 && zero then 1 else 0
  }

  /** First as a function of what it depends on. */
  function FirstOf(serverLast: u8, start: u8, early: bool, atOnce: bool): nat {
    var f := (serverLast + 1 - start) % 64;
    if serverLast == 63 && early then if f == 63 && atOnce then 0 else f + 1 else f
  }

  lemma RequestStep(start: u8, m: nat, first: nat, zero: bool)
    ensures var d := ClosedLag(start, m, first, zero);
            ClosedLag(start, m + 1, first, false) == if d == 0 then 0 else d - 1
  {}

  /** Zeros while the server still waits for its first request. */
  lemma EarlyZeroStep(serverLast: u8, start: u8, m: nat, early: bool, atOnce: bool)
    requires serverLast < 64 && start < 64
    requires var f := (serverLast + 1 - start) % 64;
             && m <= f && (atOnce ==> early) && (m == 0 && early ==> atOnce)
    requires m < FirstOf(serverLast, start, early, atOnce)
    ensures var d := ClosedLag(start, m, FirstOf(serverLast, start, early, atOnce), false);
            var d' := ClosedLag(start, m, FirstOf(serverLast, start, true, atOnce || m == 0), true);
            d' == if (start + m + d) % 64 == 0 then (d + 1) % 64 else d
  {}

  /** Zeros once the first request has been executed. */
  lemma LateZeroStep(serverLast: u8, start: u8, m: nat, early: bool, atOnce: bool, zero: bool)
    requires serverLast < 64 && start < 64
    requires var f := (serverLast + 1 - start) % 64;
             && (m <= f && zero ==> early) && (m == 0 && zero ==> atOnce) && (atOnce ==> early)
             && (m == 0 && early ==> atOnce)
    requires m >= FirstOf(serverLast, start, early, atOnce)
    ensures var f := (serverLast + 1 - start) % 64;
            var d := ClosedLag(start, m, FirstOf(serverLast, start, early, atOnce), zero);
            var d' := ClosedLag(start, m, FirstOf(serverLast, start, early || m <= f, atOnce || m == 0), true);
            d' == if (start + m + d) % 64 == 0 then (d + 1) % 64 else d
  {}

  lemma {:induction false} FirstIsFirstOf(serverLast: u8, start: u8, sent: seq<Container>, n: nat)
    requires n <= |sent|
    ensures First(serverLast, start, sent, n)
         == FirstOf(serverLast, start, ZeroUpTo(sent, n, (serverLast + 1 - start) % 64), ZeroAt(sent, n, 0))
  {}

  /** The lag in closed form, when all requests fit. */
  lemma {:induction false} LagClosed(serverLast: u8, start: u8, sent: seq<Container>, n: nat)
    requires serverLast < 64 && start < 64 && n <= |sent| && AllFit(sent)
    ensures var m := Taken(sent, n);
            Lag(serverLast, start, sent, n)
            == ClosedLag(start, m, First(serverLast, start, sent, n), ZeroAt(sent, n, m))
  {
    if n > 0 {
      LagClosed(serverLast, start, sent, n - 1);
      LagClosedStep(serverLast, start, sent, n - 1);
    }
  }

  /** One container more in the closed form; early, atOnce and zero say what zeros there were before it. */
  lemma {:induction false} ClosedStep(serverLast: u8, start: u8, c: Container, m: nat, early: bool, atOnce: bool,
                                      zero: bool)
    requires serverLast < 64 && start < 64 && !c.cargo.Dropped?
    requires var f := (serverLast + 1 - start) % 64;
             && (m <= f && zero ==> early) && (m == 0 && zero ==> atOnce) && (atOnce ==> early)
             && (m == 0 && early ==> atOnce)
    requires ClosedLag(start, m, FirstOf(serverLast, start, early, atOnce), zero) < 64
    requires m < FirstOf(serverLast, start, early, atOnce) ==> m <= (serverLast + 1 - start) % 64
    ensures var f, now := (serverLast + 1 - start) % 64, ReadsAsZero(c);
            LagStep(c, start, m, ClosedLag(start, m, FirstOf(serverLast, start, early, atOnce), zero))
            == if c.cargo.Carried? then ClosedLag(start, m + 1, FirstOf(serverLast, start, early, atOnce), false)
               else
                 var first := FirstOf(serverLast, start, early || (now && m <= f), atOnce || (now && m == 0));
                 ClosedLag(start, m, first, zero || now)
  {
    if c.cargo.Carried? {
      RequestStep(start, m, FirstOf(serverLast, start, early, atOnce), zero);
    } else if ReadsAsZero(c) {
      if m < FirstOf(serverLast, start, early, atOnce) {
        EarlyZeroStep(serverLast, start, m, early, atOnce);
        assert ClosedLag(start, m, FirstOf(serverLast, start, early, atOnce), zero)
            == ClosedLag(start, m, FirstOf(serverLast, start, early, atOnce), false);
      } else {
        LateZeroStep(serverLast, start, m, early, atOnce, zero);
      }
    }
  }

  lemma {:induction false} LagClosedStep(serverLast: u8, start: u8, sent: seq<Container>, n: nat)
    requires serverLast < 64 && start < 64 && n < |sent| && !sent[n].cargo.Dropped?
    requires var m := Taken(sent, n);
             Lag(serverLast, start, sent, n)
             == ClosedLag(start, m, First(serverLast, start, sent, n), ZeroAt(sent, n, m))
    ensures var m := Taken(sent, n + 1);
            Lag(serverLast, start, sent, n + 1)
            == ClosedLag(start, m, First(serverLast, start, sent, n + 1), ZeroAt(sent, n + 1, m))
  {
    var c, m, f := sent[n], Taken(sent, n), (serverLast + 1 - start) % 64;
    ZeroStep(sent, n, m);
    ZeroStep(sent, n, m + 1);
    ZeroStep(sent, n, f);
    ZeroStep(sent, n, 0);
    EarlyZeros(sent, n, f);
    FirstIsFirstOf(serverLast, start, sent, n);
    FirstIsFirstOf(serverLast, start, sent, n + 1);
    ClosedStep(serverLast, start, c, m, ZeroUpTo(sent, n, f), ZeroAt(sent, n, 0), ZeroAt(sent, n, m));
  }

  lemma {:induction false} EarlyZeros(sent: seq<Container>, n: nat, f: nat)
    requires n <= |sent|
    ensures ZeroAt(sent, n, 0) ==> ZeroUpTo(sent, n, f)
    ensures Taken(sent, n) == 0 && ZeroUpTo(sent, n, f) ==> ZeroAt(sent, n, 0)
    ensures Taken(sent, n) <= f && ZeroAt(sent, n, Taken(sent, n)) ==> ZeroUpTo(sent, n, f)
  {
    forall p | 0 <= p < n ensures Taken(sent, p) <= Taken(sent, n) { TakenMonotone(sent, p, n); }
  }

  /** Zeros behind the container of request k do not count for k. */
  lemma {:induction false} ZerosBehind(sent: seq<Container>, p: nat, m: nat)
    requires p < |sent| && sent[p].cargo.Carried? && m <= Taken(sent, p)
    ensures ZeroAt(sent, |sent|, m) <==> ZeroAt(sent, p, m)
    ensures ZeroUpTo(sent, |sent|, m) <==> ZeroUpTo(sent, p, m)
  {
    forall q | p < q < |sent| ensures Taken(sent, p) < Taken(sent, q) { TakenMonotone(sent, p, q); }
  }

  /** For request m the containers up to its own decide whether it comes first or later. */
  lemma {:induction false} FirstFromPrefix(serverLast: u8, start: u8, sent: seq<Container>, p: nat)
    requires p < |sent| && sent[p].cargo.Carried?
    ensures Taken(sent, p) >= First(serverLast, start, sent, p)
       <==> Taken(sent, p) >= First(serverLast, start, sent, |sent|)
  {
    var f := (serverLast + 1 - start) % 64;
    ZerosBehind(sent, p, 0);
    if f <= Taken(sent, p) {
      ZerosBehind(sent, p, f);
    } else {
      EarlyZeros(sent, p, f);
      assert ZeroUpTo(sent, p, f) ==> ZeroUpTo(sent, |sent|, f);
    }
  }

  lemma {:induction false} DueExactly(serverLast: u8, start: u8, sent: seq<Container>, p: nat)
    requires serverLast < 64 && start < 64 && p < |sent| && AllFit(sent) && sent[p].cargo.Carried?
    ensures var k := Taken(sent, p);
            (IsDue(serverLast, start, sent, p) <==>
               k >= First(serverLast, start, sent, |sent|) && !Swallowed(sent, |sent|, start, k))
  {
    LagClosed(serverLast, start, sent, p);
    FirstFromPrefix(serverLast, start, sent, p);
    ZerosBehind(sent, p, Taken(sent, p));
  }

  /** Each request that was taken has a container, carried or dropped. */
  lemma {:induction false} ContainerOf(sent: seq<Container>, n: nat, k: nat) returns (p: nat)
    requires n <= |sent| && k < Taken(sent, n)
    ensures p < n && !sent[p].cargo.Nothing? && Taken(sent, p) == k
  {
    if k < Taken(sent, n - 1) { p := ContainerOf(sent, n - 1, k); } else { p := n - 1; }
  }

  ghost predicate IsExecuted(r: Receiver, sent: seq<Container>, k: nat) {
    exists p :: p in r.executed && p < |sent| && sent[p].cargo == Carried(k)
  }

  /** A container names the request that it was made for. */
  lemma {:induction false} CargoNumber(s: Sender, start: u8, p: nat)
    requires SenderSound(s, start) && p < |s.sent| && !s.sent[p].cargo.Nothing?
    ensures s.sent[p].cargo.number == Taken(s.sent, p) < |s.requests|
  {
    assert CargoSound(s.sent[p], start, s.requests, Taken(s.sent, p));
  }

  /** No two containers are made for the same request. */
  lemma {:induction false} OneContainerEach(sent: seq<Container>, p: nat, q: nat)
    requires p < |sent| && q < |sent| && !sent[p].cargo.Nothing? && !sent[q].cargo.Nothing?
    ensures Taken(sent, p) == Taken(sent, q) ==> p == q
  {
    if p < q { TakenMonotone(sent, p, q); } else { TakenMonotone(sent, q, p); }
  }

  /** The container of a request in a sound run. */
  lemma {:induction false} OwnContainer(s: Sender, start: u8, k: nat) returns (p: nat)
    requires SenderSound(s, start) && k < |s.requests|
    ensures p < |s.sent| && Taken(s.sent, p) == k && (s.sent[p].cargo == Carried(k) || s.sent[p].cargo == Dropped(k))
    ensures forall q :: 0 <= q < |s.sent| && s.sent[q].cargo == Carried(k) ==> q == p
  {
    p := ContainerOf(s.sent, |s.sent|, k);
    CargoNumber(s, start, p);
    forall q | 0 <= q < |s.sent| && s.sent[q].cargo == Carried(k) ensures q == p {
      CargoNumber(s, start, q);
      OneContainerEach(s.sent, p, q);
    }
  }

  /** A request is executed exactly when its container is due. */
  lemma {:induction false} ExecutedIffDue(r: Receiver, s: Sender, start: u8, arrivals: seq<nat>, k: nat, p: nat)
    requires start < 64 && r.conn.lastSequence < 64 && r.executed == [] && SenderSound(s, start)
    requires Lossless(arrivals, |s.sent|) && p < |s.sent| && s.sent[p].cargo == Carried(k)
    requires forall q :: 0 <= q < |s.sent| && s.sent[q].cargo == Carried(k) ==> q == p
    ensures IsExecuted(RunServer(r, s.sent, arrivals), s.sent, k)
       <==> IsDue(r.conn.lastSequence, start, s.sent, p)
  {
    LosslessDelivers(r, s.sent, arrivals);
    ExecutedAreDue(r, s, start, p);
  }

  /**
   * Which requests are executed over a channel that may repeat but loses nothing, with any number of
   * idle containers, from any numbers of client and server, when all requests fit: those from the
   * first one on, except the ones numbered 0 that come after an idle container long enough to be
   * taken for number 0.
   */
  lemma {:induction false} RequestsExecutedExactlyOnce(conn: Client.ClientConn, ops: seq<ClientOp>,
      server: Server.ServerConn, od: OdState, arrivals: seq<nat>, k: nat)
    requires conn.nextSequence < 64 && server.lastSequence < 64
    requires var s := RunClient(conn, ops); Lossless(arrivals, |s.sent|) && AllFit(s.sent) && k < |s.requests|
    ensures var s := RunClient(conn, ops);
            var r := RunServer(Receiver(server, od, []), s.sent, arrivals);
            && Increasing(r.executed)
            && (IsExecuted(r, s.sent, k) <==>
                  && k >= First(server.lastSequence, conn.nextSequence, s.sent, |s.sent|)
                  && !Swallowed(s.sent, |s.sent|, conn.nextSequence, k))
  {
    var s, r := RunClient(conn, ops), Receiver(server, od, []);
    ClientNumbersRequests(conn, ops);
    ExecutedAtMostOnce(r, s.sent, arrivals);
    var p := OwnContainer(s, conn.nextSequence, k);
    ExecutedIffDue(r, s, conn.nextSequence, arrivals, k, p);
    DueExactly(server.lastSequence, conn.nextSequence, s.sent, p);
  }

  predicate Synchronised(conn: Client.ClientConn, server: Server.ServerConn) {
    conn.nextSequence < 64 && server.lastSequence < 64 && conn.nextSequence == (server.lastSequence + 1) % 64
  }

  /**
   * From a synchronised pair only zeros in the place of number 0 cost a request; the pair is in step again
   * after that.
   */
  lemma {:induction false} SynchronisedExecutes(conn: Client.ClientConn, ops: seq<ClientOp>,
      server: Server.ServerConn, od: OdState, arrivals: seq<nat>, k: nat)
    requires Synchronised(conn, server)
    requires var s := RunClient(conn, ops); Lossless(arrivals, |s.sent|) && AllFit(s.sent) && k < |s.requests|
    ensures var s := RunClient(conn, ops);
            (IsExecuted(RunServer(Receiver(server, od, []), s.sent, arrivals), s.sent, k) <==>
               !Swallowed(s.sent, |s.sent|, conn.nextSequence, k))
  {
    RequestsExecutedExactlyOnce(conn, ops, server, od, arrivals, k);
    FirstWhenSynchronised(server.lastSequence, conn.nextSequence, RunClient(conn, ops).sent, k);
  }

  /** In step, request 0 is the first to be executed, unless it is swallowed. */
  lemma {:induction false} FirstWhenSynchronised(serverLast: u8, start: u8, sent: seq<Container>, k: nat)
    requires serverLast < 64 && start == (serverLast + 1) % 64
    ensures k >= First(serverLast, start, sent, |sent|) && !Swallowed(sent, |sent|, start, k)
       <==> !Swallowed(sent, |sent|, start, k)
  {
    assert ZeroUpTo(sent, |sent|, 0) <==> ZeroAt(sent, |sent|, 0);
  }

  /** A request that does not fit is never executed. */
  lemma {:induction false} DroppedIsNotExecuted(s: Sender, start: u8, r: Receiver, p: nat)
    requires SenderSound(s, start) && p < |s.sent| && s.sent[p].cargo.Dropped?
    ensures s.sent[p].cargo.number < |s.requests| && !IsExecuted(r, s.sent, s.sent[p].cargo.number)
  {
    var k := s.sent[p].cargo.number;
    CargoNumber(s, start, p);
    forall q | 0 <= q < |s.sent| && s.sent[q].cargo == Carried(k) ensures false {
      CargoNumber(s, start, q);
      OneContainerEach(s.sent, p, q);
    }
  }

  ghost predicate AllExecuted(r: Receiver, s: Sender) {
    forall k :: 0 <= k < |s.requests| ==> IsExecuted(r, s.sent, k)
  }

  ghost predicate NoneSwallowed(s: Sender, start: u8) {
    forall k :: 0 <= k < |s.requests| ==> !Swallowed(s.sent, |s.sent|, start, k)
  }

  /**
   * A synchronised pair executes every request exactly when every request fits its container and
   * none is swallowed.
   */
  lemma {:induction false} EveryRequestExecuted(conn: Client.ClientConn, ops: seq<ClientOp>,
      server: Server.ServerConn, od: OdState, arrivals: seq<nat>)
    requires Synchronised(conn, server) && Lossless(arrivals, |RunClient(conn, ops).sent|)
    ensures var s := RunClient(conn, ops);
            (AllExecuted(RunServer(Receiver(server, od, []), s.sent, arrivals), s) <==>
               AllFit(s.sent) && NoneSwallowed(s, conn.nextSequence))
  {
    var s := RunClient(conn, ops);
    var r := RunServer(Receiver(server, od, []), s.sent, arrivals);
    if !AllFit(s.sent) {
      var p :| 0 <= p < |s.sent| && s.sent[p].cargo.Dropped?;
      ClientNumbersRequests(conn, ops);
      DroppedIsNotExecuted(s, conn.nextSequence, r, p);
      assert !IsExecuted(r, s.sent, s.sent[p].cargo.number);
    } else if AllExecuted(r, s) {
      forall k | 0 <= k < |s.requests| ensures !Swallowed(s.sent, |s.sent|, conn.nextSequence, k) {
        SynchronisedExecutes(conn, ops, server, od, arrivals, k);
        assert IsExecuted(r, s.sent, k);
      }
    } else {
      var k :| 0 <= k < |s.requests| && !IsExecuted(r, s.sent, k);
      SynchronisedExecutes(conn, ops, server, od, arrivals, k);
      assert Swallowed(s.sent, |s.sent|, conn.nextSequence, k);
    }
  }

  /** A fresh pair, where both sides stand at 0, never executes its first request; from the next on it is in step. */
  lemma {:induction false} FreshPairLosesFirst(ops: seq<ClientOp>, od: OdState, arrivals: seq<nat>, k: nat)
    requires var s := RunClient(Client.IDLE_CLIENT, ops);
             Lossless(arrivals, |s.sent|) && AllFit(s.sent) && k < |s.requests|
    ensures var s := RunClient(Client.IDLE_CLIENT, ops);
            (IsExecuted(RunServer(Receiver(Server.IDLE_SERVER, od, []), s.sent, arrivals), s.sent, k) <==>
               k > 0 && !Swallowed(s.sent, |s.sent|, 0, k))
  {
    RequestsExecutedExactlyOnce(Client.IDLE_CLIENT, ops, Server.IDLE_SERVER, od, arrivals, k);
  }

  // ---- What the executed requests do to the dictionary ----

  /** What performing a request, given by its number, makes of a dictionary. */
  type Effect = (nat, OdState) -> OdState

  function PerformedOne(requests: seq<Client.Request>, start: u8, k: nat, od: OdState): OdState {
    if k < |requests| then Server.Outcome(Delivered(requests[k], (start + k) % 64), od).1 else od
  }

  function EffectOf(requests: seq<Client.Request>, start: u8): Effect {
    (k: nat, od: OdState) => PerformedOne(requests, start, k, od)
  }

  /** The dictionary after some requests, one after the other. */
  function Performed(od: OdState, f: Effect, ks: seq<nat>): OdState {
    if ks == [] then od else f(ks[|ks| - 1], Performed(od, f, ks[..|ks| - 1]))
  }

  /** The dictionary after an executed container: what its request makes of it; zeros leave it alone. */
  function AfterContainer(c: Container, f: Effect, od: OdState): OdState {
    if c.cargo.Carried? then f(c.cargo.number, od) else od
  }

  ghost predicate Positions(executed: seq<nat>, n: nat) { forall i :: 0 <= i < |executed| ==> executed[i] < n }

  /** One more executed container. */
  lemma {:induction false} PerformedStep(od: OdState, f: Effect, sent: seq<Container>, executed: seq<nat>, at: nat)
    requires Positions(executed, |sent|) && at < |sent|
    ensures Positions(executed + [at], |sent|)
    ensures Performed(od, f, RequestsOf(sent, executed + [at]))
         == AfterContainer(sent[at], f, Performed(od, f, RequestsOf(sent, executed)))
  {
    assert (executed + [at])[..|executed|] == executed;
    var ks := RequestsOf(sent, executed);
    if sent[at].cargo.Carried? {
      assert (ks + [sent[at].cargo.number])[..|ks|] == ks;
    } else {
      assert ks + [] == ks;
    }
  }

  /** The receiver's dictionary is what its executed requests make of od. */
  ghost predicate Follows(od: OdState, f: Effect, sent: seq<Container>, r: Receiver) {
    Positions(r.executed, |sent|) && r.od == Performed(od, f, RequestsOf(sent, r.executed))
  }

  /** What one container does, with f for the effect of its request. */
  ghost predicate Acted(c: Container, at: nat, f: Effect, r: Receiver, r': Receiver) {
    r' == r || (r'.executed == r.executed + [at] && r'.od == AfterContainer(c, f, r.od))
  }

  lemma {:induction false} FollowsStep(od: OdState, f: Effect, sent: seq<Container>, at: nat, r: Receiver, r': Receiver)
    requires at < |sent| && Follows(od, f, sent, r) && Acted(sent[at], at, f, r, r')
    ensures Follows(od, f, sent, r')
  {
    if r' != r { PerformedStep(od, f, sent, r.executed, at); }
  }

  /** A container that is executed performs its request; executed zeros change nothing. */
  lemma {:induction false} ReceivePerforms(r: Receiver, s: Sender, start: u8, at: nat)
    requires SenderSound(s, start) && at < |s.sent|
    ensures s.sent[at].cargo.Carried? ==> s.sent[at].cargo.number < |s.requests|
    ensures var c, r' := s.sent[at], Receive(r, s.sent, at);
            || r' == r
            || (r'.executed == r.executed + [at]
                && r'.od == if c.cargo.Carried? then PerformedOne(s.requests, start, c.cargo.number, r.od) else r.od)
  {
    assert CargoSound(s.sent[at], start, s.requests, Taken(s.sent, at));
    if !s.sent[at].cargo.Carried? { IdleDecodes(|s.sent[at].bytes|); }
  }

  lemma {:induction false} ReceiveActs(r: Receiver, s: Sender, start: u8, at: nat, f: Effect)
    requires SenderSound(s, start) && at < |s.sent|
    requires forall k: nat, od: OdState :: f(k, od) == PerformedOne(s.requests, start, k, od)
    ensures Acted(s.sent[at], at, f, r, Receive(r, s.sent, at))
  {
    ReceivePerforms(r, s, start, at);
  }

  /** A chain of receivers, each of which is what a container makes of the one before. */
  lemma {:induction false} ChainFollows(od: OdState, f: Effect, sent: seq<Container>, rs: seq<Receiver>, n: nat)
    requires n <= |sent| && |rs| == |sent| + 1 && rs[0].od == od && rs[0].executed == []
    requires forall at :: 0 <= at < |sent| ==> Acted(sent[at], at, f, rs[at], rs[at + 1])
    ensures Follows(od, f, sent, rs[n])
  {
    if n > 0 {
      ChainFollows(od, f, sent, rs, n - 1);
      assert Acted(sent[n - 1], n - 1, f, rs[n - 1], rs[n - 1 + 1]);
      FollowsStep(od, f, sent, n - 1, rs[n - 1], rs[n]);
    }
  }

  lemma {:induction false} DictionaryFollows(r: Receiver, s: Sender, start: u8, f: Effect)
    requires SenderSound(s, start) && r.executed == []
    requires forall k: nat, od: OdState :: f(k, od) == PerformedOne(s.requests, start, k, od)
    ensures Follows(r.od, f, s.sent, Deliver(r, s.sent, |s.sent|))
  {
    var rs := seq(|s.sent| + 1, n requires 0 <= n <= |s.sent| => Deliver(r, s.sent, n));
    forall at | 0 <= at < |s.sent| ensures Acted(s.sent[at], at, f, rs[at], rs[at + 1]) {
      ReceiveActs(rs[at], s, start, at, f);
    }
    ChainFollows(r.od, f, s.sent, rs, |s.sent|);
  }

  /** The dictionary is what performing the executed requests in turn makes of it; zeros leave it alone. */
  lemma {:induction false} DictionaryAfterRun(conn: Client.ClientConn, ops: seq<ClientOp>,
      server: Server.ServerConn, od: OdState, arrivals: seq<nat>)
    requires conn.nextSequence < 64 && Lossless(arrivals, |RunClient(conn, ops).sent|)
    ensures var s := RunClient(conn, ops);
            var r := RunServer(Receiver(server, od, []), s.sent, arrivals);
            Follows(od, EffectOf(s.requests, conn.nextSequence), s.sent, r)
  {
    var s := RunClient(conn, ops);
    ClientNumbersRequests(conn, ops);
    LosslessDelivers(Receiver(server, od, []), s.sent, arrivals);
    DictionaryFollows(Receiver(server, od, []), s, conn.nextSequence, EffectOf(s.requests, conn.nextSequence));
  }

  // ---- Requests that do not fit ----

  /** Zeros long enough to decode are among the first n containers. */
  ghost predicate ZeroSeen(sent: seq<Container>, n: nat)
    requires n <= |sent|
  {
    exists p :: 0 <= p < n && ReadsAsZero(sent[p])
  }

  /** Request 1 has been carried after such zeros, while the server waits for number 0. */
  ghost predicate Rescued(sent: seq<Container>, n: nat, start: u8)
    requires n <= |sent|
  {
    start == 0 && exists p :: 0 <= p < n && sent[p].cargo.Carried? && Taken(sent, p) == 1 && ZeroSeen(sent, p)
  }

  /** Request 0 is not carried. */
  ghost predicate FirstDropped(sent: seq<Container>) {
    forall p :: 0 <= p < |sent| && sent[p].cargo.Carried? ==> Taken(sent, p) > 0
  }

  /** The lag after a dropped request 0, with m requests taken. */
  function DroppedLag(start: u8, m: nat, seen: bool): nat {
    if start == 0 && seen then (65 - m) % 64 else (64 - m) % 64
  }

  lemma {:induction false} DroppedLagStep(start: u8, c: Container, m: nat, seen: bool)
    requires start < 64
    requires if c.cargo.Nothing? then m <= 64 else m < 64
    requires c.cargo.Carried? ==> m > 0 && !(start == 0 && seen && m == 1)
    ensures LagStep(c, start, m, DroppedLag(start, m, seen))
         == DroppedLag(start, if c.cargo.Nothing? then m else m + 1, seen || ReadsAsZero(c))
  {}

  lemma {:induction false} SeenStep(sent: seq<Container>, n: nat, start: u8)
    requires n < |sent|
    ensures ZeroSeen(sent, n + 1) <==> ZeroSeen(sent, n) || ReadsAsZero(sent[n])
    ensures Rescued(sent, n + 1, start) <==>
              || Rescued(sent, n, start)
              || (start == 0 && sent[n].cargo.Carried? && Taken(sent, n) == 1 && ZeroSeen(sent, n))
  {
    if ReadsAsZero(sent[n]) { assert ZeroSeen(sent, n + 1); }
    if start == 0 && sent[n].cargo.Carried? && Taken(sent, n) == 1 && ZeroSeen(sent, n) {
      assert Rescued(sent, n + 1, start);
    }
  }

  lemma {:induction false} LagAfterDrop(serverLast: u8, start: u8, sent: seq<Container>, n: nat)
    requires serverLast < 64 && start == (serverLast + 1) % 64 && n <= |sent|
    requires FirstDropped(sent) && Taken(sent, n) <= 64 && !Rescued(sent, n, start)
    ensures Lag(serverLast, start, sent, n) == DroppedLag(start, Taken(sent, n), ZeroSeen(sent, n))
  {
    if n > 0 {
      SeenStep(sent, n - 1, start);
      LagAfterDrop(serverLast, start, sent, n - 1);
      DroppedLagStep(start, sent[n - 1], Taken(sent, n - 1), ZeroSeen(sent, n - 1));
    }
  }

  /** Before a rescue none of the next 63 requests is due; a rescue makes request 1 due. */
  lemma {:induction false} DueAfterDrop(serverLast: u8, start: u8, sent: seq<Container>, p: nat)
    requires serverLast < 64 && start == (serverLast + 1) % 64 && p < |sent| && sent[p].cargo.Carried?
    requires FirstDropped(sent) && 1 <= Taken(sent, p) <= 64 && !Rescued(sent, p, start)
    ensures var k := Taken(sent, p);
            (IsDue(serverLast, start, sent, p) <==>
               if start == 0 && ZeroSeen(sent, p) then k == 1 else k == 64)
  {
    LagAfterDrop(serverLast, start, sent, p);
    DroppedLagIsZero(start, Taken(sent, p), ZeroSeen(sent, p));
  }

  lemma DroppedLagIsZero(start: u8, m: nat, seen: bool)
    requires 1 <= m <= 64
    ensures DroppedLag(start, m, seen) == 0 <==> if start == 0 && seen then m == 1 else m == 64
  {}

  lemma {:induction false} DropIsFirst(s: Sender, start: u8, d: nat)
    requires SenderSound(s, start) && d < |s.sent| && s.sent[d].cargo == Dropped(0)
    ensures FirstDropped(s.sent)
  {
    forall p | 0 <= p < |s.sent| && s.sent[p].cargo.Carried? ensures Taken(s.sent, p) > 0 {
      CargoNumber(s, start, d);
      OneContainerEach(s.sent, d, p);
    }
  }

  /** A rescue behind the container of one of the next 63 requests is not behind that of request 1. */
  lemma {:induction false} RescueIsAtOne(sent: seq<Container>, n: nat, start: u8) returns (p: nat)
    requires n <= |sent| && Rescued(sent, n, start)
    ensures p < n && sent[p].cargo.Carried? && Taken(sent, p) == 1 && ZeroSeen(sent, p) && start == 0
    ensures !Rescued(sent, p, start)
  {
    p :| 0 <= p < n && sent[p].cargo.Carried? && Taken(sent, p) == 1 && ZeroSeen(sent, p);
    forall q | 0 <= q < p && sent[q].cargo.Carried? ensures Taken(sent, q) < 1 { TakenMonotone(sent, q, p); }
  }

  /** For a carried request, executed and due are the same. */
  lemma {:induction false} ExecutedWhenDue(conn: Client.ClientConn, ops: seq<ClientOp>,
      server: Server.ServerConn, od: OdState, arrivals: seq<nat>, p: nat)
    requires conn.nextSequence < 64 && server.lastSequence < 64
    requires var s := RunClient(conn, ops); Lossless(arrivals, |s.sent|) && p < |s.sent| && s.sent[p].cargo.Carried?
    ensures var s := RunClient(conn, ops);
            var r := RunServer(Receiver(server, od, []), s.sent, arrivals);
            && s.sent[p].cargo.number == Taken(s.sent, p) < |s.requests|
            && (IsExecuted(r, s.sent, Taken(s.sent, p)) <==>
                  IsDue(server.lastSequence, conn.nextSequence, s.sent, p))
  {
    var s := RunClient(conn, ops);
    ClientNumbersRequests(conn, ops);
    CargoNumber(s, conn.nextSequence, p);
    var own := OwnContainer(s, conn.nextSequence, Taken(s.sent, p));
    ExecutedIffDue(Receiver(server, od, []), s, conn.nextSequence, arrivals, Taken(s.sent, p), p);
  }

  ghost predicate SomeExecuted(r: Receiver, sent: seq<Container>, first: nat, last: nat) {
    exists k :: first <= k <= last && IsExecuted(r, sent, k)
  }

  /** A rescue makes the server execute request 1. */
  lemma {:induction false} RescueExecutes(conn: Client.ClientConn, ops: seq<ClientOp>,
      server: Server.ServerConn, od: OdState, arrivals: seq<nat>)
    requires Synchronised(conn, server)
    requires var s := RunClient(conn, ops);
             && Lossless(arrivals, |s.sent|) && FirstDropped(s.sent)
             && Rescued(s.sent, |s.sent|, conn.nextSequence)
    ensures var s := RunClient(conn, ops);
            SomeExecuted(RunServer(Receiver(server, od, []), s.sent, arrivals), s.sent, 1, 63)
  {
    var s, start := RunClient(conn, ops), conn.nextSequence;
    var p := RescueIsAtOne(s.sent, |s.sent|, start);
    DueAfterDrop(server.lastSequence, start, s.sent, p);
    ExecutedWhenDue(conn, ops, server, od, arrivals, p);
    assert IsExecuted(RunServer(Receiver(server, od, []), s.sent, arrivals), s.sent, 1);
  }

  lemma {:induction false} RescuedLonger(sent: seq<Container>, p: nat, start: u8)
    requires p < |sent|
    ensures Rescued(sent, p, start) ==> Rescued(sent, |sent|, start)
    ensures start == 0 && sent[p].cargo.Carried? && ZeroSeen(sent, p) && Taken(sent, p) == 1 ==>
              Rescued(sent, |sent|, start)
  {}

  /** Without a rescue none of the next 63 is due. */
  lemma {:induction false} NoneDue(serverLast: u8, start: u8, sent: seq<Container>, p: nat)
    requires serverLast < 64 && start == (serverLast + 1) % 64 && p < |sent| && sent[p].cargo.Carried?
    requires FirstDropped(sent) && 1 <= Taken(sent, p) <= 63 && !Rescued(sent, |sent|, start)
    ensures !IsDue(serverLast, start, sent, p)
  {
    RescuedLonger(sent, p, start);
    DueAfterDrop(serverLast, start, sent, p);
  }

  lemma {:induction false} OnlyRescueExecutes(conn: Client.ClientConn, ops: seq<ClientOp>,
      server: Server.ServerConn, od: OdState, arrivals: seq<nat>, k: nat)
    requires Synchronised(conn, server) && 1 <= k <= 63
    requires var s := RunClient(conn, ops);
             && Lossless(arrivals, |s.sent|) && FirstDropped(s.sent)
             && !Rescued(s.sent, |s.sent|, conn.nextSequence)
    ensures var s := RunClient(conn, ops);
            !IsExecuted(RunServer(Receiver(server, od, []), s.sent, arrivals), s.sent, k)
  {
    var s := RunClient(conn, ops);
    if p :| 0 <= p < |s.sent| && s.sent[p].cargo == Carried(k) {
      ExecutedWhenDue(conn, ops, server, od, arrivals, p);
      NoneDue(server.lastSequence, conn.nextSequence, s.sent, p);
    }
  }

  /** Of the next 63 requests some is executed exactly when there is a rescue. */
  lemma {:induction false} StalledUnlessRescued(conn: Client.ClientConn, ops: seq<ClientOp>,
      server: Server.ServerConn, od: OdState, arrivals: seq<nat>)
    requires Synchronised(conn, server)
    requires var s := RunClient(conn, ops); Lossless(arrivals, |s.sent|) && FirstDropped(s.sent)
    ensures var s := RunClient(conn, ops);
            (SomeExecuted(RunServer(Receiver(server, od, []), s.sent, arrivals), s.sent, 1, 63) <==>
               server.lastSequence == 63 && Rescued(s.sent, |s.sent|, conn.nextSequence))
  {
    var s := RunClient(conn, ops);
    var r := RunServer(Receiver(server, od, []), s.sent, arrivals);
    if Rescued(s.sent, |s.sent|, conn.nextSequence) {
      RescueExecutes(conn, ops, server, od, arrivals);
    } else {
      forall k | 1 <= k <= 63 ensures !IsExecuted(r, s.sent, k) {
        OnlyRescueExecutes(conn, ops, server, od, arrivals, k);
      }
    }
  }

  /**
   * A request of a synchronised client that does not fit is dropped after its number has been
   * used, and zeros go out instead. The next 63 requests are then all ignored, except when the server
   * waits for number 0 and takes such zeros, or those of an idle container, for it before the next
   * request arrives.
   */
  lemma {:induction false} OversizeStalls(conn: Client.ClientConn, ops: seq<ClientOp>,
      server: Server.ServerConn, od: OdState, arrivals: seq<nat>, d: nat)
    requires Synchronised(conn, server)
    requires var s := RunClient(conn, ops);
             Lossless(arrivals, |s.sent|) && d < |s.sent| && s.sent[d].cargo == Dropped(0)
    ensures var s := RunClient(conn, ops);
            !IsExecuted(RunServer(Receiver(server, od, []), s.sent, arrivals), s.sent, 0)
    ensures var s := RunClient(conn, ops);
            (SomeExecuted(RunServer(Receiver(server, od, []), s.sent, arrivals), s.sent, 1, 63) <==>
               server.lastSequence == 63 && Rescued(s.sent, |s.sent|, conn.nextSequence))
  {
    var s, start := RunClient(conn, ops), conn.nextSequence;
    var r := RunServer(Receiver(server, od, []), s.sent, arrivals);
    ClientNumbersRequests(conn, ops);
    DropIsFirst(s, start, d);
    DroppedIsNotExecuted(s, start, r, d);
    StalledUnlessRescued(conn, ops, server, od, arrivals);
  }

  /**
   * An idle container costs the request that the server waits for exactly when it is taken for it:
   * when that has number 0 and the container is long enough to decode.
   */
  lemma {:induction false} IdleContainerSwallowsRequest(server: Server.ServerConn, r: Client.Request,
      idle: nat, len: nat, od: OdState)
    requires server.lastSequence < 64 && Client.Fits(r, len)
    ensures var awaited := PadTo(Encode(Client.CommandOf(r, (server.lastSequence + 1) % 64)), len);
            && Server.Executes(server, awaited)
            && (!Server.Executes(Server.Handled(server, Zeros(idle), od).0, awaited) <==>
                  server.lastSequence == 63 && idle >= 8)
  {
    IdleExecutes(server, idle);
    HandledZeros(server, idle, od);
    AwaitedExecutes(server, r, len, server.lastSequence);
    AwaitedExecutes(Server.Handled(server, Zeros(idle), od).0, r, len, server.lastSequence);
  }

  /** What zeros make of the server's number. */
  lemma {:induction false} HandledZeros(server: Server.ServerConn, idle: nat, od: OdState)
    ensures Server.Handled(server, Zeros(idle), od).0.lastSequence
         == if Server.Executes(server, Zeros(idle)) then 0 else server.lastSequence
  {
    IdleDecodes(idle);
  }

  /** A request with the number after last is executed by exactly the servers that stand there. */
  lemma {:induction false} AwaitedExecutes(server: Server.ServerConn, r: Client.Request, len: nat, last: u8)
    requires last < 64 && server.lastSequence < 64 && Client.Fits(r, len)
    ensures Server.Executes(server, PadTo(Encode(Client.CommandOf(r, (last + 1) % 64)), len)) <==>
              server.lastSequence == last
  {
    var c := Client.CommandOf(r, (last + 1) % 64);
    PaddedDecodes(c, len);
    NextOf(last, server.lastSequence);
  }

  lemma NextOf(a: u8, b: u8)
    requires a < 64 && b < 64
    ensures (a + 1) % 64 != b && (a + 1) % 64 == (b + 1) % 64 <==> a == b
  {}
}
