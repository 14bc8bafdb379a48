/** The diagnostic bus and its ordered ingress. Publishers take a sequence number
    under the bus lock and hand their event over under the ingress lock; whatever
    the interleaving, the ingress routes a contiguous run in sequence order. */
module Diagnostics {
  import opened Basics

  datatype Severity = Info | Warning | Error

  /** One diagnostic: its severity, the runtime its value belongs to, its content. */
  datatype Diagnostic = Diagnostic(severity: Severity, runtime: nat, content: string)

  // ---- The bus ----

  datatype BusState = BusState(nextSequence: nat, info: nat, warnings: nat, errors: nat, runtime: Option<nat>)

  const NEW_BUS := BusState(1, 0, 0, 0, None)

  /** `validate_runtime_locked`: a bus without an owner adopts the first runtime. */
  predicate Admits(bus: BusState, runtime: nat) {
    bus.runtime == None || bus.runtime == Some(runtime)
  }

  function Bind(bus: BusState, runtime: nat): BusState {
    if bus.runtime == None then bus.(runtime := Some(runtime)) else bus
  }

  /** `record_event_locked`: one sequence number and one severity count. */
  function Record(bus: BusState, d: Diagnostic): BusState {
    var next := bus.(nextSequence := bus.nextSequence + 1);
    match d.severity
    case Info => next.(info := bus.info + 1)
    case Warning => next.(warnings := bus.warnings + 1)
    case Error => next.(errors := bus.errors + 1)
  }

  class DiagnosticBus {
    var nextSequence: nat
    var info: nat
    var warnings: nat
    var errors: nat
    var runtime: Option<nat>

    function Value(): BusState
      reads this
    {
      BusState(nextSequence, info, warnings, errors, runtime)
    }

    constructor ()
      ensures Value() == NEW_BUS
    {
      nextSequence, info, warnings, errors, runtime := 1, 0, 0, 0, None;
    }

    /** Adopts the first runtime; refuses any other without a change. */
    method ValidateRuntime(id: nat) returns (ok: bool)
      modifies this`runtime
      ensures ok <==> Admits(old(Value()), id)
      ensures Value() == if ok then Bind(old(Value()), id) else old(Value())
    {
      match runtime
      case Some(owner) => ok := owner == id;
      case None =>
        runtime := Some(id);
        ok := true;
    }

    /** Takes the next sequence number and counts the diagnostic once. */
    method RecordEvent(d: Diagnostic) returns (sequence: nat)
      modifies this
      ensures sequence == old(nextSequence) && Value() == Record(old(Value()), d)
    {
      sequence := nextSequence;
      nextSequence := sequence + 1;
      match d.severity
      case Info => info := info + 1;
      case Warning => warnings := warnings + 1;
      case Error => errors := errors + 1;
    }
  }

  // ---- The ingress ----

  /** `routed` is what the runtime port has received so far. */
  datatype IngressState = IngressState(nextSequence: nat, pending: map<nat, Diagnostic>, failed: bool,
                                       routed: seq<Diagnostic>)

  /** Routes pending events from the next sequence on, until one is missing or fails. */
  function Drain(g: IngressState, routes: nat -> bool): IngressState
    decreases |g.pending|
  {
    var next := g.nextSequence;
    if next !in g.pending then g
    else if routes(next) then Drain(RouteNext(g), routes)
    else g.(pending := g.pending - {next}, failed := true)
  }

  function Receive(g: IngressState, sequence: nat, d: Diagnostic, routes: nat -> bool): IngressState {
    if g.failed || sequence < g.nextSequence then g
    else Drain(g.(pending := g.pending[sequence := d]), routes)
  }

  class DiagnosticIngress {
    var nextSequence: nat
    var pending: map<nat, Diagnostic>
    var failed: bool
    var routed: seq<Diagnostic>

    function Value(): IngressState
      reads this
    {
      IngressState(nextSequence, pending, failed, routed)
    }

    constructor (baseline: nat)
      ensures Value() == IngressState(baseline, map[], false, [])
    {
      nextSequence, pending, failed, routed := baseline, map[], false, [];
    }

    /** Accepts one prepared event and drains what became contiguous. `routes` tells
        which sequence numbers the port accepts. */
    method ReceivePrepared(sequence: nat, prepared: Diagnostic, routes: nat -> bool) returns (changed: bool)
      modifies this
      ensures Value() == Receive(old(Value()), sequence, prepared, routes)
      ensures changed <==> |routed| > |old(routed)|
    {
      if failed || sequence < nextSequence {
        return false;
      }
      pending := pending[sequence := prepared];
      ghost var start := Value();
      changed := false;
      while nextSequence in pending
        invariant old(|routed|) <= |routed| && (changed <==> |routed| > old(|routed|))
        invariant Drain(Value(), routes) == Drain(start, routes)
        decreases |pending|
      {
        ghost var before := Value();
        var next := nextSequence;
        var event := pending[next];
        pending := pending - {next};
        if routes(next) {
          routed := routed + [event];
          changed := true;
          nextSequence := next + 1;
          assert Value() == RouteNext(before);
        } else {
          failed := true;
          break;
        }
      }
    }

    /** A publication whose preparation failed ends the ingress. */
    method RecordFailure()
      modifies this`failed
      ensures failed
    {
      failed := true;
    }
  }

  // ---- Publishers ----

  datatype Link = NotInstalled | Live | Gone

  datatype Publisher =
    | Ready
    | Guarded(d: Diagnostic)                  // saw the ingress, about to prepare
    | Prepared(d: Diagnostic)                 // about to take a sequence number
    | Unprepared(d: Diagnostic)               // preparation failed or the runtime is gone
    | Handing(sequence: nat, d: Diagnostic)   // recorded, about to hand over
    | Failing(sequence: nat)                  // recorded, about to report the failure
  {
    /** Holds a sequence number the ingress has not seen. */
    predicate InFlight() {
      Handing? || Failing?
    }
  }

  /** `log` is the history of everything recorded, sequence number i at index i - 1. */
  datatype State = State(bus: BusState, link: Link, baseline: nat, ingress: IngressState,
                         log: seq<Diagnostic>, publishers: map<nat, Publisher>)

  datatype Action =
    | Publish(d: Diagnostic)
    | Prepare(prepared: bool)
    | TakeSequence
    | HandOver(routes: nat -> bool)
    | ReportFailure

  function Recorded(s: State, d: Diagnostic): State {
    s.(bus := Record(Bind(s.bus, d.runtime), d), log := s.log + [d])
  }

  function Goto(s: State, p: nat, publisher: Publisher): State {
    s.(publishers := s.publishers[p := publisher])
  }

  ghost predicate Init(s: State) {
    && s.bus == NEW_BUS && s.link == NotInstalled && s.log == [] && s.baseline == 1
    && s.ingress == IngressState(1, map[], false, [])
    && forall p :: p in s.publishers ==> s.publishers[p] == Ready
  }

  /** One locked step of publisher `p`. */
  ghost predicate PublisherStep(s: State, p: nat, a: Action, s': State) {
    p in s.publishers &&
    match (s.publishers[p], a)
    case (Ready, Publish(d)) =>
      if !Admits(s.bus, d.runtime) then s' == s
      else if s.link == Live then s' == Goto(s.(bus := Bind(s.bus, d.runtime)), p, Guarded(d))
      else s' == Recorded(s, d)
    case (Guarded(d), Prepare(prepared)) =>
      s' == Goto(s, p, if prepared then Prepared(d) else Unprepared(d))
    case (Prepared(d), TakeSequence) =>
      s' == if Admits(s.bus, d.runtime) then Goto(Recorded(s, d), p, Handing(s.bus.nextSequence, d))
            else Goto(s, p, Ready)
    case (Unprepared(d), TakeSequence) =>
      s' == if Admits(s.bus, d.runtime) then Goto(Recorded(s, d), p, Failing(s.bus.nextSequence))
            else Goto(s, p, Ready)
    case (Handing(sequence, d), HandOver(routes)) =>
      s' == Goto(s.(ingress := Receive(s.ingress, sequence, d, routes)), p, Ready)
    case (Failing(_), ReportFailure) =>
      s' == Goto(s.(ingress := s.ingress.(failed := true)), p, Ready)
    case _ => false
  }

  /** Installing binds the bus to the runtime and captures the baseline under the bus lock. */
  ghost predicate Installs(s: State, runtime: nat, s': State) {
    && s.link == NotInstalled && Admits(s.bus, runtime)
    && s' == s.(bus := Bind(s.bus, runtime), link := Live, baseline := s.bus.nextSequence,
                ingress := IngressState(s.bus.nextSequence, map[], false, []))
  }

  /** The ingress is installed once, and vanishes only when no publisher still holds it. */
  ghost predicate SystemStep(s: State, s': State) {
    || (exists runtime: nat :: Installs(s, runtime, s'))
    || (s.link == Live && (forall p :: p in s.publishers ==> s.publishers[p] == Ready) &&
        s' == s.(link := Gone))
  }

  ghost predicate Next(s: State, p: nat, a: Action, s': State) {
    PublisherStep(s, p, a, s') || SystemStep(s, s')
  }

  // ---- The invariant ----

  function CountOf(log: seq<Diagnostic>, severity: Severity): nat {
    if log == [] then 0
    else CountOf(log[..|log| - 1], severity) + if log[|log| - 1].severity == severity then 1 else 0
  }

  /** Every recorded diagnostic has one sequence number and is counted once. */
  ghost predicate BusInv(bus: BusState, log: seq<Diagnostic>) {
    && bus.nextSequence == |log| + 1
    && bus.info == CountOf(log, Info)
    && bus.warnings == CountOf(log, Warning)
    && bus.errors == CountOf(log, Error)
  }

  /** The port received exactly the log from the baseline up to the next sequence. */
  ghost predicate IngressInv(g: IngressState, baseline: nat, log: seq<Diagnostic>) {
    && 1 <= baseline <= g.nextSequence <= |log| + 1
    && g.routed == log[baseline - 1..g.nextSequence - 1]
    && forall k :: k in g.pending ==> g.nextSequence <= k <= |log| && g.pending[k] == log[k - 1]
  }

  ghost predicate Carries(s: State, p: nat, sequence: nat) {
    p in s.publishers && s.publishers[p].InFlight() && s.publishers[p].sequence == sequence
  }

  /** A sequence number in flight belongs to one publisher and is still unknown to the
      ingress. */
  ghost predicate FlightInv(s: State) {
    && (forall p: nat, q: nat, k: nat :: Carries(s, p, k) && Carries(s, q, k) ==> p == q)
    && (forall p: nat, k: nat :: Carries(s, p, k) ==> s.ingress.nextSequence <= k <= |s.log| && k !in s.ingress.pending)
    && (forall p :: p in s.publishers && s.publishers[p].Handing? ==>
                      s.publishers[p].sequence <= |s.log| && s.publishers[p].sequence > 0 &&
                      s.publishers[p].d == s.log[s.publishers[p].sequence - 1])
    && (s.link != Live ==> forall p :: p in s.publishers ==> s.publishers[p] == Ready)
  }

  /** Until a failure, every recorded number from the next one on is pending or in flight. */
  ghost predicate CoverInv(s: State) {
    s.link == Live && !s.ingress.failed ==>
      forall k :: s.ingress.nextSequence <= k <= |s.log| ==>
                    k in s.ingress.pending || exists p :: Carries(s, p, k)
  }

  ghost predicate Inv(s: State) {
    && BusInv(s.bus, s.log)
    && IngressInv(s.ingress, s.baseline, s.log)
    && s.ingress.nextSequence !in s.ingress.pending
    && FlightInv(s)
    && CoverInv(s)
  }

  lemma RecordBusInv(bus: BusState, log: seq<Diagnostic>, d: Diagnostic)
    requires BusInv(bus, log)
    ensures BusInv(Record(Bind(bus, d.runtime), d), log + [d])
  {
    assert (log + [d])[..|log|] == log;
  }

  lemma IngressGrow(g: IngressState, baseline: nat, log: seq<Diagnostic>, d: Diagnostic)
    requires IngressInv(g, baseline, log)
    ensures IngressInv(g, baseline, log + [d])
  {
    assert log[baseline - 1..g.nextSequence - 1] == (log + [d])[baseline - 1..g.nextSequence - 1];
  }

  /** The ingress after its next pending event was routed. */
  function RouteNext(g: IngressState): IngressState
    requires g.nextSequence in g.pending
  {
    g.(nextSequence := g.nextSequence + 1, pending := g.pending - {g.nextSequence},
       routed := g.routed + [g.pending[g.nextSequence]])
  }

  lemma RouteNextInv(g: IngressState, baseline: nat, log: seq<Diagnostic>)
    requires IngressInv(g, baseline, log) && g.nextSequence in g.pending
    ensures IngressInv(RouteNext(g), baseline, log)
  {
    var next := g.nextSequence;
    assert log[baseline - 1..next] == log[baseline - 1..next - 1] + [log[next - 1]];
  }

  /** Draining keeps the routed run contiguous and stops with the next number missing. */
  lemma {:induction false} DrainInv(g: IngressState, routes: nat -> bool, baseline: nat, log: seq<Diagnostic>)
    requires IngressInv(g, baseline, log)
    ensures IngressInv(Drain(g, routes), baseline, log)
    ensures Drain(g, routes).nextSequence !in Drain(g, routes).pending
    decreases |g.pending|
  {
    if g.nextSequence in g.pending && routes(g.nextSequence) {
      RouteNextInv(g, baseline, log);
      DrainInv(RouteNext(g), routes, baseline, log);
    }
  }

  /** What draining takes out of the pending map: routed numbers, and one that failed. */
  lemma {:induction false} DrainTakes(g: IngressState, routes: nat -> bool)
    ensures var g' := Drain(g, routes);
            && g.nextSequence <= g'.nextSequence
            && g.routed <= g'.routed
            && (forall k :: g.nextSequence <= k < g'.nextSequence ==> k in g.pending)
            && (forall k :: k in g'.pending ==> k in g.pending)
            && (!g'.failed ==> forall k :: k in g.pending && g'.nextSequence <= k ==> k in g'.pending)
    decreases |g.pending|
  {
    if g.nextSequence in g.pending && routes(g.nextSequence) {
      DrainTakes(RouteNext(g), routes);
      assert forall k :: k in RouteNext(g).pending <==> k in g.pending && k != g.nextSequence;
    }
  }

  /** Every number from the next one of `g` up to that of `g'` arrived, was accepted and
      was routed, in order. */
  ghost predicate RoutedRun(arrived: map<nat, Diagnostic>, routes: nat -> bool, g: IngressState, g': IngressState) {
    && g.nextSequence <= g'.nextSequence && |g'.routed| == |g.routed| + g'.nextSequence - g.nextSequence
    && g.routed <= g'.routed
    && forall m :: g.nextSequence <= m < g'.nextSequence ==>
                     m in arrived && routes(m) && g'.routed[|g.routed| + m - g.nextSequence] == arrived[m]
  }

  /** What arrived and was not taken is still pending. */
  ghost predicate StillPending(arrived: map<nat, Diagnostic>, g: IngressState, g': IngressState) {
    && (forall m :: m in g'.pending <==> m in arrived && (m < g.nextSequence || g'.nextSequence <= m) &&
                                         !(g'.failed && m == g'.nextSequence))
    && forall m :: m in g'.pending ==> g'.pending[m] == arrived[m]
  }

  /** Draining routes every number up to the first one that is missing or refused, and
      fails exactly when that one has arrived and is refused. */
  ghost predicate DrainedTo(arrived: map<nat, Diagnostic>, routes: nat -> bool, g: IngressState, g': IngressState) {
    && RoutedRun(arrived, routes, g, g')
    && (if g'.failed then g'.nextSequence in arrived && !routes(g'.nextSequence) else g'.nextSequence !in arrived)
    && StillPending(arrived, g, g')
  }

  lemma RoutedOneMore(g: IngressState, routes: nat -> bool, g': IngressState)
    requires g.nextSequence in g.pending && routes(g.nextSequence)
    requires RoutedRun(RouteNext(g).pending, routes, RouteNext(g), g')
    ensures RoutedRun(g.pending, routes, g, g')
  {
    var h := RouteNext(g);
    assert g'.routed[|g.routed|] == h.routed[|g.routed|] == g.pending[g.nextSequence];
    forall m | g.nextSequence < m < g'.nextSequence
      ensures m in g.pending && routes(m) && g'.routed[|g.routed| + m - g.nextSequence] == g.pending[m]
    {
      assert m in h.pending && g'.routed[|h.routed| + m - h.nextSequence] == h.pending[m];
    }
  }

  lemma {:induction false} DrainExact(g: IngressState, routes: nat -> bool)
    requires !g.failed
    ensures DrainedTo(g.pending, routes, g, Drain(g, routes))
    decreases |g.pending|
  {
    if g.nextSequence in g.pending && routes(g.nextSequence) {
      DrainExact(RouteNext(g), routes);
      RoutedOneMore(g, routes, Drain(g, routes));
    }
  }

  /** Everything up to a refused number has arrived and is accepted. */
  ghost predicate Reaches(arrived: map<nat, Diagnostic>, routes: nat -> bool, start: nat, n: nat) {
    start <= n && n in arrived && !routes(n) && forall m: nat :: start <= m < n ==> m in arrived && routes(m)
  }

  /** What receiving one event does, whatever arrived before it. A failed ingress and a
      number already routed change nothing. Otherwise everything that is contiguous and
      accepted is routed, and the ingress fails exactly when a refused number has arrived
      together with all numbers before it: an event that is early only waits. */
  lemma ReceiveExact(g: IngressState, sequence: nat, d: Diagnostic, routes: nat -> bool)
    ensures var g' := Receive(g, sequence, d, routes);
            var arrived := g.pending[sequence := d];
            if g.failed || sequence < g.nextSequence then g' == g
            else
              && DrainedTo(arrived, routes, g, g')
              && (g'.failed <==> exists n: nat :: Reaches(arrived, routes, g.nextSequence, n))
  {
    if !g.failed && g.nextSequence <= sequence {
      var arrived := g.pending[sequence := d];
      var g' := Receive(g, sequence, d, routes);
      DrainExact(g.(pending := arrived), routes);
      assert DrainedTo(arrived, routes, g, g');
      if g'.failed {
        assert Reaches(arrived, routes, g.nextSequence, g'.nextSequence);
      }
    }
  }

  lemma {:induction false} CountsCover(log: seq<Diagnostic>)
    ensures CountOf(log, Info) + CountOf(log, Warning) + CountOf(log, Error) == |log|
  {
    if log != [] {
      CountsCover(log[..|log| - 1]);
    }
  }

  lemma InitInv(s: State)
    requires Init(s)
    ensures Inv(s)
  {
  }

  /** Steps that record nothing and leave the ingress alone, or only fail it. */
  lemma QuietStep(s: State, p: nat, publisher: Publisher, s': State)
    requires Inv(s) && p in s.publishers && s.link == Live
    requires !publisher.InFlight()
    requires s'.publishers == s.publishers[p := publisher] && s'.link == s.link && s'.log == s.log
    requires s'.baseline == s.baseline && s'.bus == s.bus.(runtime := s'.bus.runtime)
    requires s.publishers[p].InFlight() ==> s'.ingress.failed
    requires s'.ingress == s.ingress.(failed := s'.ingress.failed) && (s.ingress.failed ==> s'.ingress.failed)
    ensures Inv(s')
  {
    assert forall q: nat, k: nat :: Carries(s', q, k) ==> Carries(s, q, k);
    assert CoverInv(s') by {
      if !s'.ingress.failed {
        forall k: nat | s.ingress.nextSequence <= k <= |s.log|
          ensures k in s.ingress.pending || exists q :: Carries(s', q, k)
        {
          if q :| Carries(s, q, k) {
            assert q != p && Carries(s', q, k);
          }
        }
      }
    }
  }

  /** One more recorded number, carried by `p`, and nothing else changed in flight. */
  ghost predicate OneMoreInFlight(s: State, p: nat, s': State) {
    && s'.ingress == s.ingress && s'.link == s.link && |s'.log| == |s.log| + 1
    && forall q: nat, k: nat :: Carries(s', q, k) <==> Carries(s, q, k) || (q == p && k == |s'.log|)
  }

  lemma TakeCover(s: State, p: nat, s': State)
    requires CoverInv(s) && OneMoreInFlight(s, p, s')
    ensures CoverInv(s')
  {
    if s.link == Live && !s.ingress.failed {
      forall k: nat | s.ingress.nextSequence <= k <= |s'.log|
        ensures k in s.ingress.pending || exists q :: Carries(s', q, k)
      {
        if k == |s'.log| {
          assert Carries(s', p, k);
        } else if k !in s.ingress.pending {
          var q :| Carries(s, q, k);
          assert Carries(s', q, k);
        }
      }
    }
  }

  /** A publisher that records takes the next number, which is then in flight. */
  lemma TakeSequenceStep(s: State, p: nat, d: Diagnostic, publisher: Publisher)
    requires Inv(s) && p in s.publishers && s.link == Live && !s.publishers[p].InFlight()
    requires publisher == Handing(s.bus.nextSequence, d) || publisher == Failing(s.bus.nextSequence)
    ensures Inv(Goto(Recorded(s, d), p, publisher))
  {
    var s' := Goto(Recorded(s, d), p, publisher);
    RecordBusInv(s.bus, s.log, d);
    IngressGrow(s.ingress, s.baseline, s.log, d);
    assert OneMoreInFlight(s, p, s');
    TakeCover(s, p, s');
    TakeFlight(s, p, d, publisher);
  }

  lemma TakeFlight(s: State, p: nat, d: Diagnostic, publisher: Publisher)
    requires BusInv(s.bus, s.log) && IngressInv(s.ingress, s.baseline, s.log) && FlightInv(s)
    requires p in s.publishers && s.link == Live
    requires publisher == Handing(s.bus.nextSequence, d) || publisher == Failing(s.bus.nextSequence)
    requires OneMoreInFlight(s, p, Goto(Recorded(s, d), p, publisher))
    ensures FlightInv(Goto(Recorded(s, d), p, publisher))
  {
  }

  /** Without a live ingress a publication is only recorded. */
  lemma DirectStep(s: State, d: Diagnostic)
    requires Inv(s) && s.link != Live
    ensures Inv(Recorded(s, d))
  {
    RecordBusInv(s.bus, s.log, d);
    IngressGrow(s.ingress, s.baseline, s.log, d);
    assert forall q: nat, k: nat :: !Carries(Recorded(s, d), q, k);
  }

  /** Handing over moves one number from flight to pending or on to the port. */
  lemma HandOverStep(s: State, p: nat, routes: nat -> bool)
    requires Inv(s) && p in s.publishers && s.publishers[p].Handing? && s.link == Live
    ensures var pub := s.publishers[p];
            Inv(Goto(s.(ingress := Receive(s.ingress, pub.sequence, pub.d, routes)), p, Ready))
  {
    var pub := s.publishers[p];
    assert Carries(s, p, pub.sequence);
    var s' := Goto(s.(ingress := Receive(s.ingress, pub.sequence, pub.d, routes)), p, Ready);
    HandOverCarries(s, p, s'.ingress);
    if s.ingress.failed {
      HandOverDropped(s, p, s');
    } else {
      var g := s.ingress.(pending := s.ingress.pending[pub.sequence := pub.d]);
      DrainInv(g, routes, s.baseline, s.log);
      DrainTakes(g, routes);
      HandOverCover(s, p, g, s');
      HandOverFlight(s, p, g, s');
    }
  }

  lemma HandOverCarries(s: State, p: nat, ingress: IngressState)
    requires p in s.publishers && s.publishers[p].Handing?
    ensures var s' := Goto(s.(ingress := ingress), p, Ready);
            forall q: nat, k: nat :: Carries(s', q, k) <==> Carries(s, q, k) && q != p
  {
  }

  /** After a failure the ingress drops what is handed over. */
  lemma HandOverDropped(s: State, p: nat, s': State)
    requires Inv(s) && p in s.publishers && s.publishers[p].Handing? && s.link == Live && s.ingress.failed
    requires s' == Goto(s, p, Ready)
    requires forall q: nat, k: nat :: Carries(s', q, k) <==> Carries(s, q, k) && q != p
    ensures Inv(s')
  {
  }

  lemma HandOverFlight(s: State, p: nat, g: IngressState, s': State)
    requires Inv(s) && p in s.publishers && s.publishers[p].Handing? && s.link == Live && s'.link == Live
    requires s'.log == s.log && s'.publishers == s.publishers[p := Ready]
    requires g == s.ingress.(pending := s.ingress.pending[s.publishers[p].sequence := s.publishers[p].d])
    requires forall k :: g.nextSequence <= k < s'.ingress.nextSequence ==> k in g.pending
    requires forall k :: k in s'.ingress.pending ==> k in g.pending
    requires forall q: nat, k: nat :: Carries(s', q, k) <==> Carries(s, q, k) && q != p
    ensures FlightInv(s')
  {
    assert Carries(s, p, s.publishers[p].sequence);
    forall q: nat, k: nat | Carries(s', q, k)
      ensures s'.ingress.nextSequence <= k <= |s'.log| && k !in s'.ingress.pending
    {
      assert k !in g.pending;
    }
  }

  lemma HandOverCover(s: State, p: nat, g: IngressState, s': State)
    requires Inv(s) && p in s.publishers && s.publishers[p].Handing? && s.link == Live && s'.link == Live
    requires s'.log == s.log
    requires g == s.ingress.(pending := s.ingress.pending[s.publishers[p].sequence := s.publishers[p].d])
    requires g.nextSequence <= s'.ingress.nextSequence && (g.failed ==> s'.ingress.failed)
    requires !s'.ingress.failed ==>
               forall k :: k in g.pending && s'.ingress.nextSequence <= k ==> k in s'.ingress.pending
    requires forall q: nat, k: nat :: Carries(s', q, k) <==> Carries(s, q, k) && q != p
    ensures CoverInv(s')
  {
    if !s'.ingress.failed {
      forall k: nat | s'.ingress.nextSequence <= k <= |s.log|
        ensures k in s'.ingress.pending || exists q :: Carries(s', q, k)
      {
        if k !in g.pending {
          var q :| Carries(s, q, k);
          assert q != p && Carries(s', q, k);
        }
      }
    }
  }

  lemma SystemStepInv(s: State, s': State)
    requires Inv(s) && SystemStep(s, s')
    ensures Inv(s')
  {
    assert forall q: nat, k: nat :: !Carries(s', q, k);
  }

  lemma StepInv(s: State, p: nat, a: Action, s': State)
    requires Inv(s) && Next(s, p, a, s')
    ensures Inv(s')
  {
    if SystemStep(s, s') {
      SystemStepInv(s, s');
    } else {
      match (s.publishers[p], a)
      case (Ready, Publish(d)) =>
        if Admits(s.bus, d.runtime) {
          if s.link == Live {
            QuietStep(s, p, Guarded(d), s');
          } else {
            DirectStep(s, d);
          }
        }
      case (Guarded(d), Prepare(prepared)) => QuietStep(s, p, s'.publishers[p], s');
      case (Prepared(d), TakeSequence) =>
        if Admits(s.bus, d.runtime) {
          TakeSequenceStep(s, p, d, s'.publishers[p]);
        } else {
          QuietStep(s, p, Ready, s');
        }
      case (Unprepared(d), TakeSequence) =>
        if Admits(s.bus, d.runtime) {
          TakeSequenceStep(s, p, d, s'.publishers[p]);
        } else {
          QuietStep(s, p, Ready, s');
        }
      case (Handing(_, _), HandOver(routes)) => HandOverStep(s, p, routes);
      case (Failing(_), ReportFailure) => QuietStep(s, p, Ready, s');
    }
  }

  // ---- Whole runs ----

  ghost predicate IsRun(states: seq<State>, actors: seq<nat>, actions: seq<Action>) {
    && |states| == |actors| + 1 && |actors| == |actions|
    && Init(states[0])
    && forall i :: 0 <= i < |actors| ==> Next(states[i], actors[i], actions[i], states[i + 1])
  }

  lemma {:induction false} RunInv(states: seq<State>, actors: seq<nat>, actions: seq<Action>, i: nat)
    requires IsRun(states, actors, actions) && i < |states|
    ensures Inv(states[i])
  {
    if i == 0 {
      InitInv(states[0]);
    } else {
      RunInv(states, actors, actions, i - 1);
      StepInv(states[i - 1], actors[i - 1], actions[i - 1], states[i]);
    }
  }

  /** In every interleaving, and whatever failed, the port has received exactly the
      recorded diagnostics from the installation baseline on: in order, each once,
      with none skipped. */
  lemma RoutedInOrder(states: seq<State>, actors: seq<nat>, actions: seq<Action>, i: nat)
    requires IsRun(states, actors, actions) && i < |states|
    ensures var s := states[i];
            && 1 <= s.baseline <= s.ingress.nextSequence <= s.bus.nextSequence == |s.log| + 1
            && s.ingress.routed == s.log[s.baseline - 1..s.ingress.nextSequence - 1]
  {
    RunInv(states, actors, actions, i);
  }

  /** With a live ingress, nothing failed and no publisher in flight, nothing is
      pending and everything published since installation has been routed. */
  lemma QuiescentIngressIsComplete(states: seq<State>, actors: seq<nat>, actions: seq<Action>, i: nat)
    requires IsRun(states, actors, actions) && i < |states|
    requires states[i].link == Live && !states[i].ingress.failed
    requires forall p :: p in states[i].publishers ==> !states[i].publishers[p].InFlight()
    ensures states[i].ingress.pending == map[]
    ensures 1 <= states[i].baseline <= |states[i].log| + 1
    ensures states[i].ingress.routed == states[i].log[states[i].baseline - 1..]
  {
    RunInv(states, actors, actions, i);
    var s := states[i];
    assert forall p: nat, k: nat :: !Carries(s, p, k);
    assert s.ingress.nextSequence == |s.log| + 1;
    assert forall k :: k !in s.ingress.pending;
  }

  /** No preparation fails, and no hand-over meets a number that the port refuses. */
  ghost predicate Accepting(actions: seq<Action>, n: nat)
    requires n <= |actions|
  {
    forall i :: 0 <= i < n ==>
                  && (actions[i].Prepare? ==> actions[i].prepared)
                  && (actions[i].HandOver? ==> forall k: nat :: actions[i].routes(k))
  }

  ghost predicate NothingFailed(s: State) {
    !s.ingress.failed && forall p :: p in s.publishers ==> !s.publishers[p].Unprepared? && !s.publishers[p].Failing?
  }

  lemma NothingFailedStep(s: State, p: nat, a: Action, s': State)
    requires NothingFailed(s) && Next(s, p, a, s')
    requires (a.Prepare? ==> a.prepared) && (a.HandOver? ==> forall k: nat :: a.routes(k))
    ensures NothingFailed(s')
  {
    if PublisherStep(s, p, a, s') && s.publishers[p].Handing? && a.HandOver? {
      ReceiveExact(s.ingress, s.publishers[p].sequence, s.publishers[p].d, a.routes);
    }
  }

  /** As long as no preparation fails and the port refuses nothing, the ingress never
      fails, in whatever order the numbers arrive. */
  lemma {:induction false} AcceptedNeverFails(states: seq<State>, actors: seq<nat>, actions: seq<Action>, i: nat)
    requires IsRun(states, actors, actions) && i < |states| && Accepting(actions, i)
    ensures NothingFailed(states[i])
  {
    if i != 0 {
      AcceptedNeverFails(states, actors, actions, i - 1);
      NothingFailedStep(states[i - 1], actors[i - 1], actions[i - 1], states[i]);
    }
  }

  /** Then whatever was recorded since installation has been delivered as soon as no
      publisher is in flight. */
  lemma AcceptedIsDelivered(states: seq<State>, actors: seq<nat>, actions: seq<Action>, i: nat)
    requires IsRun(states, actors, actions) && i < |states| && Accepting(actions, i)
    requires states[i].link == Live
    requires forall p :: p in states[i].publishers ==> !states[i].publishers[p].InFlight()
    ensures !states[i].ingress.failed && states[i].ingress.pending == map[]
    ensures 1 <= states[i].baseline <= |states[i].log| + 1
    ensures states[i].ingress.routed == states[i].log[states[i].baseline - 1..]
  {
    AcceptedNeverFails(states, actors, actions, i);
    QuiescentIngressIsComplete(states, actors, actions, i);
  }

  lemma FailureStep(s: State, p: nat, a: Action, s': State)
    requires Next(s, p, a, s') && (s.link == NotInstalled ==> !s.ingress.failed)
    requires s.link != Live ==> forall q :: q in s.publishers ==> s.publishers[q] == Ready
    ensures s'.link == NotInstalled ==> !s'.ingress.failed
    ensures s.ingress.failed ==> s'.ingress.failed && s'.ingress.routed == s.ingress.routed
  {
  }

  lemma {:induction false} FailsOnlyInstalled(states: seq<State>, actors: seq<nat>, actions: seq<Action>, i: nat)
    requires IsRun(states, actors, actions) && i < |states|
    ensures states[i].link == NotInstalled ==> !states[i].ingress.failed
  {
    if i != 0 {
      FailsOnlyInstalled(states, actors, actions, i - 1);
      RunInv(states, actors, actions, i - 1);
      FailureStep(states[i - 1], actors[i - 1], actions[i - 1], states[i]);
    }
  }

  lemma FailureKept(states: seq<State>, actors: seq<nat>, actions: seq<Action>, i: nat)
    requires IsRun(states, actors, actions) && i < |actors| && states[i].ingress.failed
    ensures states[i + 1].ingress.failed && states[i + 1].ingress.routed == states[i].ingress.routed
  {
    FailsOnlyInstalled(states, actors, actions, i);
    RunInv(states, actors, actions, i);
    FailureStep(states[i], actors[i], actions[i], states[i + 1]);
  }

  /** A failure is final: the port receives nothing after it. */
  lemma {:induction false} FailureIsFinal(states: seq<State>, actors: seq<nat>, actions: seq<Action>, i: nat, j: nat)
    requires IsRun(states, actors, actions) && i <= j < |states| && states[i].ingress.failed
    ensures states[j].ingress.failed && states[j].ingress.routed == states[i].ingress.routed
    decreases j
  {
    if i < j {
      FailureIsFinal(states, actors, actions, i, j - 1);
      FailureKept(states, actors, actions, j - 1);
    }
  }

  /** Severity counts always sum to the last sequence number. */
  lemma CountsSumToLatest(states: seq<State>, actors: seq<nat>, actions: seq<Action>, i: nat)
    requires IsRun(states, actors, actions) && i < |states|
    ensures states[i].bus.info + states[i].bus.warnings + states[i].bus.errors == states[i].bus.nextSequence - 1
    ensures states[i].bus.info == CountOf(states[i].log, Info)
    ensures states[i].bus.warnings == CountOf(states[i].log, Warning)
    ensures states[i].bus.errors == CountOf(states[i].log, Error)
  {
    RunInv(states, actors, actions, i);
    CountsCover(states[i].log);
  }

  // ---- Runtime ownership ----

  /** Everything recorded, and every publisher past its first check, belongs to the
      one runtime the bus is bound to. */
  ghost predicate RuntimeInv(s: State) {
    && (forall k :: 0 <= k < |s.log| ==> s.bus.runtime == Some(s.log[k].runtime))
    && (forall p :: p in s.publishers && (s.publishers[p].Guarded? || s.publishers[p].Prepared? ||
                                          s.publishers[p].Unprepared?) ==>
                      s.bus.runtime == Some(s.publishers[p].d.runtime))
  }

  lemma RuntimeStep(s: State, p: nat, a: Action, s': State)
    requires RuntimeInv(s) && Next(s, p, a, s')
    ensures RuntimeInv(s')
    ensures s.log <= s'.log
  {
  }

  /** The bus never mixes runtimes, and a publication that passed its first check is
      not turned away when it takes its sequence number. */
  lemma {:induction false} OneRuntime(states: seq<State>, actors: seq<nat>, actions: seq<Action>, i: nat)
    requires IsRun(states, actors, actions) && i < |states|
    ensures RuntimeInv(states[i])
    ensures forall p :: p in states[i].publishers && states[i].publishers[p].Prepared? ==>
                          Admits(states[i].bus, states[i].publishers[p].d.runtime)
  {
    if i != 0 {
      OneRuntime(states, actors, actions, i - 1);
      RuntimeStep(states[i - 1], actors[i - 1], actions[i - 1], states[i]);
    }
  }

  /** Which publications are recorded: all of a bus without an owner and of its owner,
      none of another runtime. A publication that found the ingress is recorded when it
      takes its sequence number, whether or not it could be prepared. */
  lemma PublicationsAreRecorded(states: seq<State>, actors: seq<nat>, actions: seq<Action>, i: nat)
    requires IsRun(states, actors, actions) && i < |actors|
    requires PublisherStep(states[i], actors[i], actions[i], states[i + 1])
    ensures var s, p, s' := states[i], actors[i], states[i + 1];
            match actions[i]
            case Publish(d) =>
              if s.bus.runtime != None && s.bus.runtime != Some(d.runtime) then s' == s
              else if s.link == Live then s'.publishers == s.publishers[p := Guarded(d)] && s'.log == s.log
              else s'.publishers == s.publishers && s'.log == s.log + [d]
            case TakeSequence =>
              && (s.publishers[p].Prepared? || s.publishers[p].Unprepared?)
              && s'.log == s.log + [s.publishers[p].d]
              && s'.publishers[p] == if s.publishers[p].Prepared? then Handing(|s'.log|, s.publishers[p].d)
                                     else Failing(|s'.log|)
            case _ => s'.log == s.log
  {
    OneRuntime(states, actors, actions, i);
    RunInv(states, actors, actions, i);
  }
}
