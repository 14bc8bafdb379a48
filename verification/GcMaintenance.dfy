/** The runtime's ledger of managed-heap maintenance: collection leases, revisions,
    epochs, explicit requests and the disposition left by published outcomes, which
    may arrive late and out of order. */
module GcMaintenance {
  import opened Basics

  datatype Disposition = Idle | RetryRequired | Poisoned

  datatype FailureKind = CollectorPanic | FinalizerPanic | PoisonedHeap

  datatype Failure = Failure(id: nat, kind: FailureKind, message: string)

  datatype HeapSnapshot = PoisonedSnapshot | Usable(epoch: nat, pendingFinalizers: nat)

  datatype Outcome = Outcome(heap: HeapSnapshot, failure: Option<(FailureKind, string)>)

  datatype Ledger = Ledger(
    activeLeases: nat,
    revision: nat,
    explicitRequest: bool,
    disposition: Disposition,
    nextFailureId: nat,
    epoch: nat,
    failures: seq<Failure>
  )

  const NEW_LEDGER := Ledger(0, 0, false, Idle, 0, 0, [])

  // ---- The operations on values ----

  function Revised(l: Ledger): Ledger {
    l.(revision := l.revision + 1)
  }

  /** The outcome asks for another attempt. */
  predicate NeedsRetry(o: Outcome) {
    o.failure.Some? || (o.heap.Usable? && o.heap.pendingFinalizers != 0)
  }

  function PublishHeap(l: Ledger, o: Outcome): Ledger {
    match o.heap
    case PoisonedSnapshot => l.(disposition := Poisoned)
    case Usable(epoch, _) =>
      if epoch > l.epoch then
        l.(epoch := epoch, explicitRequest := false,
           disposition := if NeedsRetry(o) then RetryRequired else Idle)
      else if epoch == l.epoch && NeedsRetry(o) then l.(disposition := RetryRequired)
      else l
  }

  function PushFailure(l: Ledger, kind: FailureKind, message: string): Ledger {
    l.(nextFailureId := l.nextFailureId + 1,
       failures := l.failures + [Failure(l.nextFailureId + 1, kind, message)])
  }

  /** A poisoned heap's repeated report is not recorded again. */
  predicate Records(l: Ledger, o: Outcome) {
    o.failure.Some? && !(l.disposition.Poisoned? && o.failure.value.0.PoisonedHeap?)
  }

  function Publish(l: Ledger, o: Outcome): Ledger {
    if Records(l, o) then PushFailure(PublishHeap(l, o), o.failure.value.0, o.failure.value.1)
    else PublishHeap(l, o)
  }

  /** Maintenance is wanted: a pending request or a required retry. */
  predicate Actionable(l: Ledger) {
    l.explicitRequest || l.disposition.RetryRequired?
  }

  predicate SnapshotBegins(l: Ledger, revision: nat) {
    l.revision == revision && l.activeLeases == 0 && Actionable(l)
  }

  predicate Promotes(l: Ledger) {
    l.activeLeases == 0 && !l.explicitRequest && l.disposition.Idle?
  }

  datatype Op =
    | Begin
    | BeginForSnapshot(revision: nat)
    | Finish(outcome: Outcome)
    | Abandon
    | RecordRequest
    | PromotePressure
    | RecordRequestFailure(outcome: Outcome)

  /** Retiring a lease that was never begun is a panic in the source. */
  predicate Enabled(l: Ledger, op: Op) {
    op.Finish? || op.Abandon? ==> l.activeLeases > 0
  }

  function Apply(l: Ledger, op: Op): Ledger
    requires Enabled(l, op)
  {
    match op
    case Begin => Revised(l.(activeLeases := l.activeLeases + 1))
    case BeginForSnapshot(revision) =>
      if SnapshotBegins(l, revision) then Revised(l.(activeLeases := l.activeLeases + 1)) else l
    case Finish(outcome) => Revised(Publish(l.(activeLeases := l.activeLeases - 1), outcome))
    case Abandon => Revised(l.(activeLeases := l.activeLeases - 1, disposition := RetryRequired))
    case RecordRequest => if l.explicitRequest then l else Revised(l.(explicitRequest := true))
    case PromotePressure => if Promotes(l) then Revised(l.(explicitRequest := true)) else l
    case RecordRequestFailure(outcome) => Revised(Publish(l.(explicitRequest := true), outcome))
  }

  // ---- The mutable ledger ----

  class GcMaintenanceState {
    var activeLeases: nat
    var revision: nat
    var explicitRequest: bool
    var disposition: Disposition
    var nextFailureId: nat
    var completedCollectionEpoch: nat
    var failures: seq<Failure>

    function Value(): Ledger
      reads this
    {
      Ledger(activeLeases, revision, explicitRequest, disposition, nextFailureId,
             completedCollectionEpoch, failures)
    }

    constructor ()
      ensures Value() == NEW_LEDGER
    {
      activeLeases, revision, explicitRequest, disposition := 0, 0, false, Idle;
      nextFailureId, completedCollectionEpoch, failures := 0, 0, [];
    }

    method AdvanceRevision()
      modifies this`revision
      ensures Value() == Revised(old(Value()))
    {
      revision := revision + 1;
    }

    method RetireLease()
      requires activeLeases > 0
      modifies this`activeLeases
      ensures activeLeases == old(activeLeases) - 1
    {
      activeLeases := activeLeases - 1;
    }

    method RecordFailure(kind: FailureKind, message: string)
      modifies this`nextFailureId, this`failures
      ensures Value() == PushFailure(old(Value()), kind, message)
    {
      nextFailureId := nextFailureId + 1;
      failures := failures + [Failure(nextFailureId, kind, message)];
    }

    method PublishOutcome(outcome: Outcome)
      modifies this
      ensures Value() == Publish(old(Value()), outcome)
    {
      var wasPoisoned := disposition == Poisoned;
      match outcome.heap {
        case PoisonedSnapshot =>
          disposition := Poisoned;
        case Usable(observedEpoch, pendingFinalizers) =>
          if observedEpoch > completedCollectionEpoch {
            completedCollectionEpoch := observedEpoch;
            explicitRequest := false;
            disposition := if outcome.failure.Some? || pendingFinalizers != 0 then RetryRequired else Idle;
          } else if observedEpoch == completedCollectionEpoch
                    && (outcome.failure.Some? || pendingFinalizers != 0) {
            disposition := RetryRequired;
          }
      }
      if outcome.failure.Some? && !(wasPoisoned && outcome.failure.value.0 == PoisonedHeap) {
        RecordFailure(outcome.failure.value.0, outcome.failure.value.1);
      }
    }

    method BeginGcActivity()
      modifies this
      ensures Value() == Apply(old(Value()), Begin)
    {
      activeLeases := activeLeases + 1;
      AdvanceRevision();
    }

    method BeginGcActivityForSnapshot(snapshotRevision: nat) returns (begun: bool)
      modifies this
      ensures begun <==> SnapshotBegins(old(Value()), snapshotRevision)
      ensures Value() == Apply(old(Value()), BeginForSnapshot(snapshotRevision))
    {
      if revision != snapshotRevision || activeLeases != 0
         || !(explicitRequest || disposition == RetryRequired) {
        return false;
      }
      activeLeases := activeLeases + 1;
      AdvanceRevision();
      return true;
    }

    method FinishGcActivity(outcome: Outcome)
      requires activeLeases > 0
      modifies this
      ensures Value() == Apply(old(Value()), Finish(outcome))
    {
      RetireLease();
      PublishOutcome(outcome);
      AdvanceRevision();
    }

    method AbandonGcActivity()
      requires activeLeases > 0
      modifies this
      ensures Value() == Apply(old(Value()), Abandon)
    {
      RetireLease();
      disposition := RetryRequired;
      AdvanceRevision();
    }

    method RecordGcRequest()
      modifies this
      ensures Value() == Apply(old(Value()), RecordRequest)
    {
      if !explicitRequest {
        explicitRequest := true;
        AdvanceRevision();
      }
    }

    method PromoteGcPressureRequest() returns (promoted: bool)
      modifies this
      ensures promoted <==> Promotes(old(Value()))
      ensures Value() == Apply(old(Value()), PromotePressure)
    {
      if activeLeases != 0 || explicitRequest || disposition != Idle {
        return false;
      }
      explicitRequest := true;
      AdvanceRevision();
      return true;
    }

    method RecordGcRequestFailure(outcome: Outcome)
      modifies this
      ensures Value() == Apply(old(Value()), RecordRequestFailure(outcome))
    {
      explicitRequest := true;
      PublishOutcome(outcome);
      AdvanceRevision();
    }
  }

  // ---- Outcomes in any order ----

  function PublishAll(l: Ledger, outcomes: seq<Outcome>): Ledger {
    if outcomes == [] then l
    else Publish(PublishAll(l, outcomes[..|outcomes| - 1]), outcomes[|outcomes| - 1])
  }

  predicate AllUsable(outcomes: seq<Outcome>) {
    forall i :: 0 <= i < |outcomes| ==> outcomes[i].heap.Usable?
  }

  /** The newest epoch known, from the ledger or any outcome. */
  ghost predicate IsNewest(epoch: nat, l: Ledger, outcomes: seq<Outcome>) {
    && l.epoch <= epoch
    && (forall o :: o in outcomes && o.heap.Usable? ==> o.heap.epoch <= epoch)
    && (epoch == l.epoch || exists o :: o in outcomes && o.heap.Usable? && o.heap.epoch == epoch)
  }

  /** Some outcome of that very epoch asks for another attempt. */
  ghost predicate RetryAt(epoch: nat, outcomes: seq<Outcome>) {
    exists o :: o in outcomes && o.heap.Usable? && o.heap.epoch == epoch &&
                (o.failure.Some? || o.heap.pendingFinalizers != 0)
  }

  /** Whatever the order, the epoch is the newest seen and only outcomes of that epoch
      decide whether a retry is required. */
  lemma {:induction false} PublishAllSummary(l: Ledger, outcomes: seq<Outcome>)
    requires AllUsable(outcomes)
    ensures var final := PublishAll(l, outcomes);
            && IsNewest(final.epoch, l, outcomes)
            && final.explicitRequest == (l.explicitRequest && final.epoch == l.epoch)
            && final.disposition ==
               if RetryAt(final.epoch, outcomes) then RetryRequired
               else if final.epoch == l.epoch then l.disposition
               else Idle
  {
    if outcomes != [] {
      var init, last := outcomes[..|outcomes| - 1], outcomes[|outcomes| - 1];
      PublishAllSummary(l, init);
      assert forall o :: o in outcomes <==> o in init || o == last;
      var before, final := PublishAll(l, init), PublishAll(l, outcomes);
      if last.heap.epoch > before.epoch {
        assert !RetryAt(last.heap.epoch, init);
        assert last in outcomes && last.heap.epoch == final.epoch;
      } else if RetryAt(final.epoch, init) {
        var o :| o in init && o.heap.Usable? && o.heap.epoch == final.epoch &&
                 (o.failure.Some? || o.heap.pendingFinalizers != 0);
        assert o in outcomes;
      }
      assert RetryAt(final.epoch, outcomes) <==>
             RetryAt(final.epoch, init) || (last.heap.epoch == final.epoch && NeedsRetry(last));
    }
  }

  /** Publishing the same usable-heap outcomes in two orders leaves the same epoch,
      request flag and disposition. */
  lemma OrderIndependent(l: Ledger, a: seq<Outcome>, b: seq<Outcome>)
    requires AllUsable(a) && AllUsable(b) && multiset(a) == multiset(b)
    ensures PublishAll(l, a).epoch == PublishAll(l, b).epoch
    ensures PublishAll(l, a).disposition == PublishAll(l, b).disposition
    ensures PublishAll(l, a).explicitRequest == PublishAll(l, b).explicitRequest
  {
    PublishAllSummary(l, a);
    PublishAllSummary(l, b);
    assert forall o :: o in a <==> o in multiset(a);
    assert forall o :: o in b <==> o in multiset(b);
  }

  /** A late report about an older epoch changes nothing but the failure log. */
  lemma LateOutcomeInert(l: Ledger, o: Outcome)
    requires o.heap.Usable? && o.heap.epoch < l.epoch
    ensures Publish(l, o) == l.(failures := Publish(l, o).failures, nextFailureId := Publish(l, o).nextFailureId)
  {
  }

  // ---- The failure log in any order ----

  type Report = (FailureKind, string)

  function Reported(o: Outcome): seq<Report> {
    if o.failure.Some? then [o.failure.value] else []
  }

  /** What each outcome contributes, in order. */
  function Gather(f: Outcome -> seq<Report>, outcomes: seq<Outcome>): seq<Report> {
    if outcomes == [] then [] else Gather(f, outcomes[..|outcomes| - 1]) + f(outcomes[|outcomes| - 1])
  }

  function AllReported(outcomes: seq<Outcome>): seq<Report> {
    Gather(Reported, outcomes)
  }

  function Logged(l: Ledger): seq<Report> {
    seq(|l.failures|, i requires 0 <= i < |l.failures| => (l.failures[i].kind, l.failures[i].message))
  }

  lemma PublishLogs(l: Ledger, o: Outcome)
    ensures Logged(Publish(l, o)) == Logged(l) + if Records(l, o) then Reported(o) else []
  {
  }

  /** The outcome lifts a poisoned disposition. */
  predicate Lifts(l: Ledger, o: Outcome) {
    o.heap.Usable? &&
    (o.heap.epoch > l.epoch || (o.heap.epoch == l.epoch && (o.failure.Some? || o.heap.pendingFinalizers != 0)))
  }

  predicate ReportsPoison(o: Outcome) {
    o.failure.Some? && o.failure.value.0.PoisonedHeap?
  }

  /** What every producer of an outcome keeps: poison is reported only with the
      snapshot of a poisoned heap. */
  predicate Produced(o: Outcome) {
    ReportsPoison(o) ==> o.heap.PoisonedSnapshot?
  }

  predicate NoneLifts(l: Ledger, outcomes: seq<Outcome>) {
    forall i :: 0 <= i < |outcomes| ==> !Lifts(l, outcomes[i])
  }

  lemma NoneLiftsPush(l: Ledger, outcomes: seq<Outcome>)
    requires outcomes != []
    ensures NoneLifts(l, outcomes) <==>
            NoneLifts(l, outcomes[..|outcomes| - 1]) && !Lifts(l, outcomes[|outcomes| - 1])
  {
    var init := outcomes[..|outcomes| - 1];
    assert forall i :: 0 <= i < |init| ==> init[i] == outcomes[i];
  }

  /** Usable outcomes leave a ledger poisoned exactly when it was and none of them lifts
      the poison; until then the epoch stands still. */
  lemma {:induction false} StillPoisoned(l: Ledger, outcomes: seq<Outcome>)
    requires AllUsable(outcomes)
    ensures PublishAll(l, outcomes).disposition.Poisoned? <==> l.disposition.Poisoned? && NoneLifts(l, outcomes)
    ensures NoneLifts(l, outcomes) ==> PublishAll(l, outcomes).epoch == l.epoch
  {
    if outcomes != [] {
      StillPoisoned(l, outcomes[..|outcomes| - 1]);
      NoneLiftsPush(l, outcomes);
    }
  }

  /** The i-th report is dropped: it reports poison to a ledger still poisoned. */
  predicate Dropped(l: Ledger, outcomes: seq<Outcome>, i: nat)
    requires i < |outcomes|
  {
    l.disposition.Poisoned? && ReportsPoison(outcomes[i]) && NoneLifts(l, outcomes[..i])
  }

  /** The reports that are logged: all but the dropped ones, in order. */
  function Kept(l: Ledger, outcomes: seq<Outcome>): seq<Report> {
    if outcomes == [] then []
    else
      var n := |outcomes| - 1;
      Kept(l, outcomes[..n]) + if Dropped(l, outcomes, n) then [] else Reported(outcomes[n])
  }

  /** The log after any usable outcomes, from any ledger. */
  lemma {:induction false} LogExact(l: Ledger, outcomes: seq<Outcome>)
    requires AllUsable(outcomes)
    ensures Logged(PublishAll(l, outcomes)) == Logged(l) + Kept(l, outcomes)
  {
    if outcomes != [] {
      var init, last := outcomes[..|outcomes| - 1], outcomes[|outcomes| - 1];
      LogExact(l, init);
      StillPoisoned(l, init);
      PublishLogs(PublishAll(l, init), last);
    } else {
      assert Logged(l) + [] == Logged(l);
    }
  }

  ghost predicate NoneDropped(l: Ledger, outcomes: seq<Outcome>) {
    forall i: nat :: i < |outcomes| ==> !Dropped(l, outcomes, i)
  }

  lemma NoneDroppedPush(l: Ledger, outcomes: seq<Outcome>)
    requires outcomes != []
    ensures NoneDropped(l, outcomes) <==>
            NoneDropped(l, outcomes[..|outcomes| - 1]) && !Dropped(l, outcomes, |outcomes| - 1)
  {
    var init := outcomes[..|outcomes| - 1];
    forall i: nat | i < |init|
      ensures Dropped(l, init, i) <==> Dropped(l, outcomes, i)
    {
      assert init[..i] == outcomes[..i];
    }
  }

  lemma {:induction false} KeptAll(l: Ledger, outcomes: seq<Outcome>)
    ensures |Kept(l, outcomes)| <= |AllReported(outcomes)|
    ensures NoneDropped(l, outcomes) ==> Kept(l, outcomes) == AllReported(outcomes)
    ensures !NoneDropped(l, outcomes) ==> |Kept(l, outcomes)| < |AllReported(outcomes)|
  {
    if outcomes != [] {
      KeptAll(l, outcomes[..|outcomes| - 1]);
      NoneDroppedPush(l, outcomes);
    }
  }

  /** Every reported failure is logged, in order, exactly when none is dropped; so from
      an unpoisoned ledger always, and from any ledger for outcomes as produced. */
  lemma LogComplete(l: Ledger, outcomes: seq<Outcome>)
    requires AllUsable(outcomes)
    ensures Logged(PublishAll(l, outcomes)) == Logged(l) + AllReported(outcomes) <==> NoneDropped(l, outcomes)
    ensures !l.disposition.Poisoned? ==> NoneDropped(l, outcomes)
    ensures (forall o :: o in outcomes ==> Produced(o)) ==> NoneDropped(l, outcomes)
  {
    LogExact(l, outcomes);
    KeptAll(l, outcomes);
    if forall o :: o in outcomes ==> Produced(o) {
      assert forall i :: 0 <= i < |outcomes| ==> Produced(outcomes[i]);
    }
  }

  // ---- Contributions do not depend on the order ----

  lemma {:induction false} GatherSplit(f: Outcome -> seq<Report>, a: seq<Outcome>, b: seq<Outcome>)
    ensures Gather(f, a + b) == Gather(f, a) + Gather(f, b)
  {
    if b == [] {
      assert a + b == a;
    } else {
      var init, last := b[..|b| - 1], b[|b| - 1];
      GatherSplit(f, a, init);
      assert (a + b)[..|a + b| - 1] == a + init;
      Associative(Gather(f, a), Gather(f, init), f(last));
    }
  }

  lemma Middle<X>(front: seq<X>, middle: seq<X>, back: seq<X>)
    ensures multiset(front + (middle + back)) == multiset(front + back) + multiset(middle)
  {
  }

  lemma GatherOne(f: Outcome -> seq<Report>, o: Outcome)
    ensures Gather(f, [o]) == f(o)
  {
    assert [o][..0] == [];
    assert [] + f(o) == f(o);
  }

  lemma GatherMiddle(f: Outcome -> seq<Report>, front: seq<Outcome>, o: Outcome, back: seq<Outcome>)
    ensures multiset(Gather(f, front + ([o] + back))) == multiset(Gather(f, front + back)) + multiset(f(o))
  {
    GatherSplit(f, front, [o] + back);
    GatherSplit(f, [o], back);
    GatherSplit(f, front, back);
    GatherOne(f, o);
    Middle(Gather(f, front), f(o), Gather(f, back));
  }

  lemma Around<X>(all: seq<X>, k: nat)
    requires k < |all|
    ensures all == all[..k] + ([all[k]] + all[k + 1..])
    ensures multiset(all) == multiset(all[..k] + all[k + 1..]) + multiset{all[k]}
  {
    Middle(all[..k], [all[k]], all[k + 1..]);
    assert all == all[..k] + ([all[k]] + all[k + 1..]);
  }

  lemma {:induction false} GatherPermutes(f: Outcome -> seq<Report>, a: seq<Outcome>, b: seq<Outcome>)
    requires multiset(a) == multiset(b)
    ensures multiset(Gather(f, a)) == multiset(Gather(f, b))
    decreases |a|
  {
    if a == [] {
      assert |multiset(b)| == |b|;
    } else {
      assert a[0] in multiset(a);
      var k := Position(b, a[0]);
      Removed(a, b, k);
      GatherPermutes(f, a[..0] + a[1..], b[..k] + b[k + 1..]);
      GatherAt(f, a, 0);
      GatherAt(f, b, k);
    }
  }

  lemma GatherAt(f: Outcome -> seq<Report>, outcomes: seq<Outcome>, k: nat)
    requires k < |outcomes|
    ensures multiset(Gather(f, outcomes)) ==
            multiset(Gather(f, outcomes[..k] + outcomes[k + 1..])) + multiset(f(outcomes[k]))
  {
    Around(outcomes, k);
    GatherMiddle(f, outcomes[..k], outcomes[k], outcomes[k + 1..]);
  }

  lemma Removed<X>(a: seq<X>, b: seq<X>, k: nat)
    requires multiset(a) == multiset(b) && |a| > 0 && k < |b| && b[k] == a[0]
    ensures multiset(a[..0] + a[1..]) == multiset(b[..k] + b[k + 1..])
  {
    Around(a, 0);
    Around(b, k);
    var x, y := multiset(a[..0] + a[1..]), multiset(b[..k] + b[k + 1..]);
    assert multiset{a[0]} + x == multiset(a) && multiset{a[0]} + y == multiset(b);
    Cancel(multiset{a[0]}, x, y);
  }

  lemma Position<X>(all: seq<X>, x: X) returns (k: nat)
    requires x in multiset(all)
    ensures k < |all| && all[k] == x
  {
    k :| 0 <= k < |all| && all[k] == x;
  }

  lemma Cancel<X>(common: multiset<X>, x: multiset<X>, y: multiset<X>)
    ensures common + x == common + y <==> x == y
  {
    assert (common + x) - common == x && (common + y) - common == y;
  }

  lemma SameMembers<X>(a: seq<X>, b: seq<X>)
    requires multiset(a) == multiset(b)
    ensures forall x :: x in a <==> x in b
  {
    assert forall x :: x in a <==> x in multiset(a);
    assert forall x :: x in b <==> x in multiset(b);
  }

  // ---- When the log does not depend on the order ----

  /** No poison report depends on its place: there is none, or nothing lifts the poison,
      or just the reporting outcomes lift it and they all report alike. */
  ghost predicate PlaceFree(l: Ledger, outcomes: seq<Outcome>) {
    l.disposition.Poisoned? ==>
      || (forall o :: o in outcomes ==> !ReportsPoison(o))
      || (forall o :: o in outcomes ==> !Lifts(l, o))
      || (&& (forall o :: o in outcomes ==> (Lifts(l, o) <==> ReportsPoison(o)))
          && (forall o, p :: o in outcomes && p in outcomes && ReportsPoison(o) && ReportsPoison(p) ==>
                               o.failure == p.failure))
  }

  /** What an outcome adds to the log wherever it comes while nothing lifts the poison. */
  function Quiet(o: Outcome): seq<Report> {
    if ReportsPoison(o) then [] else Reported(o)
  }

  lemma {:induction false} KeptUnlifted(l: Ledger, outcomes: seq<Outcome>)
    requires l.disposition.Poisoned? && NoneLifts(l, outcomes)
    ensures Kept(l, outcomes) == Gather(Quiet, outcomes)
  {
    if outcomes != [] {
      NoneLiftsPush(l, outcomes);
      KeptUnlifted(l, outcomes[..|outcomes| - 1]);
    }
  }

  /** When just the reporting outcomes lift, all alike, one report is dropped: the first. */
  lemma {:induction false} KeptButOne(l: Ledger, outcomes: seq<Outcome>, report: Report)
    requires l.disposition.Poisoned?
    requires forall i :: 0 <= i < |outcomes| ==> (Lifts(l, outcomes[i]) <==> ReportsPoison(outcomes[i]))
    requires forall i :: 0 <= i < |outcomes| && ReportsPoison(outcomes[i]) ==> outcomes[i].failure == Some(report)
    ensures NoneLifts(l, outcomes) ==> Kept(l, outcomes) == AllReported(outcomes)
    ensures !NoneLifts(l, outcomes) ==>
              multiset(Kept(l, outcomes)) + multiset{report} == multiset(AllReported(outcomes))
  {
    if outcomes != [] {
      var init, last := outcomes[..|outcomes| - 1], outcomes[|outcomes| - 1];
      assert forall i :: 0 <= i < |init| ==> init[i] == outcomes[i];
      NoneLiftsPush(l, outcomes);
      KeptButOne(l, init, report);
      assert ReportsPoison(last) ==> Reported(last) == [report];
    }
  }

  lemma KeptAgree(l: Ledger, a: seq<Outcome>, b: seq<Outcome>)
    requires multiset(a) == multiset(b) && PlaceFree(l, a)
    ensures multiset(Kept(l, a)) == multiset(Kept(l, b))
  {
    SameMembers(a, b);
    GatherPermutes(Reported, a, b);
    if !l.disposition.Poisoned? || forall o :: o in a ==> !ReportsPoison(o) {
      KeptAll(l, a);
      KeptAll(l, b);
      assert forall i: nat :: i < |a| ==> a[i] in a;
      assert forall i: nat :: i < |b| ==> b[i] in a;
    } else if forall o :: o in a ==> !Lifts(l, o) {
      assert forall i: nat :: i < |b| ==> b[i] in a;
      KeptUnlifted(l, a);
      KeptUnlifted(l, b);
      GatherPermutes(Quiet, a, b);
    } else {
      var o :| o in a && ReportsPoison(o);
      KeptLifted(l, a, b, o);
    }
  }

  lemma LiftedOnce(l: Ledger, outcomes: seq<Outcome>, o: Outcome)
    requires l.disposition.Poisoned? && o in outcomes && ReportsPoison(o)
    requires forall x :: x in outcomes ==> (Lifts(l, x) <==> ReportsPoison(x))
    requires forall x :: x in outcomes && ReportsPoison(x) ==> x.failure == o.failure
    ensures multiset(Kept(l, outcomes)) + multiset{o.failure.value} == multiset(AllReported(outcomes))
  {
    assert forall i :: 0 <= i < |outcomes| ==> outcomes[i] in outcomes;
    KeptButOne(l, outcomes, o.failure.value);
    var i :| 0 <= i < |outcomes| && outcomes[i] == o;
    assert Lifts(l, outcomes[i]);
  }

  lemma KeptLifted(l: Ledger, a: seq<Outcome>, b: seq<Outcome>, o: Outcome)
    requires l.disposition.Poisoned? && o in a && ReportsPoison(o)
    requires (forall x :: x in a <==> x in b) && multiset(AllReported(a)) == multiset(AllReported(b))
    requires forall x :: x in a ==> (Lifts(l, x) <==> ReportsPoison(x))
    requires forall x :: x in a && ReportsPoison(x) ==> x.failure == o.failure
    ensures multiset(Kept(l, a)) == multiset(Kept(l, b))
  {
    LiftedOnce(l, a, o);
    LiftedOnce(l, b, o);
    Cancelled(multiset(Kept(l, a)), multiset(Kept(l, b)), multiset{o.failure.value});
  }

  lemma Cancelled<X>(x: multiset<X>, y: multiset<X>, common: multiset<X>)
    ensures x + common == y + common <==> x == y
  {
    assert (x + common) - common == x && (y + common) - common == y;
  }

  /** For outcomes as produced from any ledger, and for any outcomes from an unpoisoned
      one, usable outcomes in any two orders leave the same failures logged, up to order. */
  lemma LogOrderIndependent(l: Ledger, a: seq<Outcome>, b: seq<Outcome>)
    requires AllUsable(a) && multiset(a) == multiset(b)
    requires !l.disposition.Poisoned? || forall o :: o in a ==> Produced(o)
    ensures multiset(Logged(PublishAll(l, a))) == multiset(Logged(PublishAll(l, b)))
  {
    assert forall o :: o in a ==> o.heap.Usable?;
    LogsAgree(l, a, b);
  }

  lemma LogsAgree(l: Ledger, a: seq<Outcome>, b: seq<Outcome>)
    requires AllUsable(a) && multiset(a) == multiset(b) && PlaceFree(l, a)
    ensures multiset(Logged(PublishAll(l, a))) == multiset(Logged(PublishAll(l, b)))
  {
    SameMembers(a, b);
    assert forall i :: 0 <= i < |b| ==> b[i] in a;
    LogExact(l, a);
    LogExact(l, b);
    KeptAgree(l, a, b);
  }

  ghost predicate SwapFree(l: Ledger, a: Outcome, b: Outcome) {
    l.disposition.Poisoned? ==>
      && (Lifts(l, a) && ReportsPoison(b) <==> Lifts(l, b) && ReportsPoison(a))
      && (Lifts(l, a) && ReportsPoison(b) ==> a.failure == b.failure)
  }

  /** Two usable outcomes leave the same failures logged in either order, up to order,
      unless the ledger is poisoned and exactly one of them would lift the poison
      before the other reports it (or both would, with different reports). */
  lemma LogSwapExact(l: Ledger, a: Outcome, b: Outcome)
    requires a.heap.Usable? && b.heap.Usable?
    ensures multiset(Logged(PublishAll(l, [a, b]))) == multiset(Logged(PublishAll(l, [b, a]))) <==> SwapFree(l, a, b)
  {
    var common := multiset(Logged(l)) + AlwaysLogged(l, a) + AlwaysLogged(l, b);
    LogPair(l, a, b);
    LogPair(l, b, a);
    assert multiset(Logged(PublishAll(l, [b, a]))) == common + AfterLift(l, b, a);
    Cancel(common, AfterLift(l, a, b), AfterLift(l, b, a));
    AfterLiftSame(l, a, b);
  }

  /** What an outcome adds to the log wherever it comes. */
  function AlwaysLogged(l: Ledger, o: Outcome): multiset<(FailureKind, string)> {
    if Records(l, o) then multiset{o.failure.value} else multiset{}
  }

  /** What `b` adds only because `a` lifted the poison before it. */
  function AfterLift(l: Ledger, a: Outcome, b: Outcome): multiset<(FailureKind, string)> {
    if l.disposition.Poisoned? && Lifts(l, a) && ReportsPoison(b) then multiset{b.failure.value} else multiset{}
  }

  lemma LogsOne(l: Ledger, o: Outcome)
    ensures multiset(Logged(Publish(l, o))) == multiset(Logged(l)) + AlwaysLogged(l, o)
  {
    PublishLogs(l, o);
  }

  lemma LogsSecond(l: Ledger, a: Outcome, b: Outcome)
    requires a.heap.Usable? && b.heap.Usable?
    ensures AlwaysLogged(Publish(l, a), b) == AlwaysLogged(l, b) + AfterLift(l, a, b)
  {
    assert Publish(l, a).disposition.Poisoned? <==> l.disposition.Poisoned? && !Lifts(l, a);
  }

  lemma LogPair(l: Ledger, a: Outcome, b: Outcome)
    requires a.heap.Usable? && b.heap.Usable?
    ensures multiset(Logged(PublishAll(l, [a, b])))
            == multiset(Logged(l)) + AlwaysLogged(l, a) + AlwaysLogged(l, b) + AfterLift(l, a, b)
  {
    assert [a, b][..1] == [a] && [a][..0] == [];
    assert PublishAll(l, [a]) == Publish(l, a);
    LogsOne(l, a);
    LogsOne(Publish(l, a), b);
    LogsSecond(l, a, b);
  }

  lemma AfterLiftSame(l: Ledger, a: Outcome, b: Outcome)
    ensures AfterLift(l, a, b) == AfterLift(l, b, a) <==> SwapFree(l, a, b)
  {
    if b.failure.Some? {
      assert AfterLift(l, a, b) == AfterLift(l, b, a) ==>
          AfterLift(l, a, b)[b.failure.value] == AfterLift(l, b, a)[b.failure.value];
    }
    if a.failure.Some? {
      assert AfterLift(l, a, b) == AfterLift(l, b, a) ==>
          AfterLift(l, a, b)[a.failure.value] == AfterLift(l, b, a)[a.failure.value];
    }
  }

  lemma {:induction false} PublishAllSplit(l: Ledger, a: seq<Outcome>, b: seq<Outcome>)
    ensures PublishAll(l, a + b) == PublishAll(PublishAll(l, a), b)
  {
    if b == [] {
      assert a + b == a;
    } else {
      PublishAllSplit(l, a, b[..|b| - 1]);
      assert (a + b)[..|a + b| - 1] == a + b[..|b| - 1];
    }
  }

  /** Once a pair has lifted the poison, what follows it is logged in full. */
  lemma LogsAfterPair(l: Ledger, u: Outcome, v: Outcome, rest: seq<Outcome>)
    requires AllUsable(rest) && u.heap.Usable? && v.heap.Usable? && (Lifts(l, u) || Lifts(l, v))
    ensures multiset(Logged(PublishAll(l, [u, v] + rest))) ==
            multiset(Logged(PublishAll(l, [u, v]))) + multiset(AllReported(rest))
  {
    var pair := [u, v];
    PublishAllSplit(l, pair, rest);
    StillPoisoned(l, pair);
    assert Lifts(l, pair[0]) || Lifts(l, pair[1]);
    LogComplete(PublishAll(l, pair), rest);
  }

  /** A pair whose order matters makes two orders of everything that differ. */
  lemma PairMatters(l: Ledger, outcomes: seq<Outcome>, u: Outcome, v: Outcome) returns (rest: seq<Outcome>)
    requires AllUsable(outcomes) && u in outcomes && v in outcomes && !SwapFree(l, u, v)
    ensures multiset([u, v] + rest) == multiset(outcomes) == multiset([v, u] + rest)
    ensures multiset(Logged(PublishAll(l, [u, v] + rest))) != multiset(Logged(PublishAll(l, [v, u] + rest)))
  {
    rest := WithoutPair(outcomes, u, v);
    PairFirst(u, v, rest);
    RestUsable(outcomes, u, v, rest);
    LogsAfterPair(l, u, v, rest);
    LogsAfterPair(l, v, u, rest);
    LogSwapExact(l, u, v);
    Cancelled(multiset(Logged(PublishAll(l, [u, v]))), multiset(Logged(PublishAll(l, [v, u]))),
              multiset(AllReported(rest)));
  }

  lemma RestUsable(outcomes: seq<Outcome>, u: Outcome, v: Outcome, rest: seq<Outcome>)
    requires AllUsable(outcomes) && multiset(outcomes) == multiset([u, v] + rest)
    ensures AllUsable(rest) && u.heap.Usable? && v.heap.Usable?
  {
    var all := [u, v] + rest;
    SameMembers(outcomes, all);
    assert forall o :: o in outcomes ==> o.heap.Usable?;
    assert all[0] == u && all[1] == v && u in all && v in all;
    forall i | 0 <= i < |rest|
      ensures rest[i].heap.Usable?
    {
      assert all[i + 2] == rest[i] && rest[i] in all;
    }
  }

  lemma PairFirst<X>(u: X, v: X, rest: seq<X>)
    ensures multiset([u, v] + rest) == multiset([v, u] + rest) == multiset{u, v} + multiset(rest)
  {
  }

  lemma WithoutPair<X>(all: seq<X>, u: X, v: X) returns (rest: seq<X>)
    requires u in all && v in all && u != v
    ensures multiset(all) == multiset([u, v] + rest)
  {
    var k := Position(all, u);
    var fewer := all[..k] + all[k + 1..];
    Around(all, k);
    assert v in multiset(all) && v in multiset(fewer);
    var j := Position(fewer, v);
    rest := fewer[..j] + fewer[j + 1..];
    Around(fewer, j);
    PairFirst(u, v, rest);
  }

  /** An outcome pair whose order matters exists when places are not free. */
  lemma FindPair(l: Ledger, outcomes: seq<Outcome>) returns (u: Outcome, v: Outcome)
    requires !PlaceFree(l, outcomes)
    ensures u in outcomes && v in outcomes && !SwapFree(l, u, v)
  {
    var reports :| reports in outcomes && ReportsPoison(reports);
    var lifts :| lifts in outcomes && Lifts(l, lifts);
    if o :| o in outcomes && ReportsPoison(o) && !Lifts(l, o) {
      u, v := lifts, o;
    } else if o :| o in outcomes && Lifts(l, o) && !ReportsPoison(o) {
      u, v := o, reports;
    } else {
      u, v :| u in outcomes && v in outcomes && ReportsPoison(u) && ReportsPoison(v) && u.failure != v.failure;
    }
  }

  ghost predicate SameLogInAnyOrder(l: Ledger, outcomes: seq<Outcome>) {
    forall other: seq<Outcome> :: multiset(other) == multiset(outcomes) ==>
      multiset(Logged(PublishAll(l, other))) == multiset(Logged(PublishAll(l, outcomes)))
  }

  lemma SameLogAt(l: Ledger, outcomes: seq<Outcome>, other: seq<Outcome>)
    requires SameLogInAnyOrder(l, outcomes) && multiset(other) == multiset(outcomes)
    ensures multiset(Logged(PublishAll(l, other))) == multiset(Logged(PublishAll(l, outcomes)))
  {
  }

  lemma PlacesMatter(l: Ledger, outcomes: seq<Outcome>)
    requires AllUsable(outcomes) && !PlaceFree(l, outcomes)
    ensures !SameLogInAnyOrder(l, outcomes)
  {
    var u, v := FindPair(l, outcomes);
    var rest := PairMatters(l, outcomes, u, v);
    if SameLogInAnyOrder(l, outcomes) {
      SameLogAt(l, outcomes, [u, v] + rest);
      SameLogAt(l, outcomes, [v, u] + rest);
    }
  }

  /** From any ledger, any number of usable outcomes leave the same failures logged in
      every order exactly when no poison report depends on its place. */
  lemma LogOrderExact(l: Ledger, outcomes: seq<Outcome>)
    requires AllUsable(outcomes)
    ensures SameLogInAnyOrder(l, outcomes) <==> PlaceFree(l, outcomes)
  {
    if PlaceFree(l, outcomes) {
      forall other: seq<Outcome> | multiset(other) == multiset(outcomes)
        ensures multiset(Logged(PublishAll(l, other))) == multiset(Logged(PublishAll(l, outcomes)))
      {
        LogsAgree(l, outcomes, other);
      }
    } else {
      PlacesMatter(l, outcomes);
    }
  }

  /** Two usable outcomes, one of them reporting poison as no producer does, that a
      poisoned ledger logs differently in the two orders. */
  lemma LogOrderFails()
    ensures var l := NEW_LEDGER.(disposition := Poisoned);
            var newer := Outcome(Usable(1, 0), None);
            var stray := Outcome(Usable(0, 0), Some((PoisonedHeap, "poisoned")));
            && !Produced(stray)
            && multiset(Logged(PublishAll(l, [newer, stray]))) != multiset(Logged(PublishAll(l, [stray, newer])))
  {
    var l := NEW_LEDGER.(disposition := Poisoned);
    var newer := Outcome(Usable(1, 0), None);
    var stray := Outcome(Usable(0, 0), Some((PoisonedHeap, "poisoned")));
    LogSwapExact(l, newer, stray);
  }

  // ---- Runs with leases ----

  /** The ledger with the lease tokens clients hold. A lease dropped after the runtime
      was poisoned is never retired. */
  datatype World = World(ledger: Ledger, live: set<nat>, leaked: set<nat>, begun: nat, retired: nat)

  datatype Event =
    | Lease(op: Op)                     // Begin or BeginForSnapshot
    | Retire(lease: nat, op: Op)        // Finish or Abandon, consuming one lease
    | Leak(lease: nat)
    | Other(op: Op)

  ghost predicate Step(w: World, e: Event, w': World) {
    match e
    case Lease(op) =>
      && (op.Begin? || op.BeginForSnapshot?)
      && w' == if op.Begin? || SnapshotBegins(w.ledger, op.revision)
               then w.(ledger := Apply(w.ledger, op), live := w.live + {w.begun}, begun := w.begun + 1)
               else w.(ledger := Apply(w.ledger, op))
    case Retire(lease, op) =>
      && (op.Finish? || op.Abandon?) && lease in w.live && Enabled(w.ledger, op)
      && w' == w.(ledger := Apply(w.ledger, op), live := w.live - {lease}, retired := w.retired + 1)
    case Leak(lease) =>
      lease in w.live && w' == w.(live := w.live - {lease}, leaked := w.leaked + {lease})
    case Other(op) =>
      (op.RecordRequest? || op.PromotePressure? || op.RecordRequestFailure?) &&
      w' == w.(ledger := Apply(w.ledger, op))
  }

  const NEW_WORLD := World(NEW_LEDGER, {}, {}, 0, 0)

  ghost predicate LeaseInv(w: World) {
    && (forall t :: t in w.live ==> t < w.begun && t !in w.leaked)
    && (forall t :: t in w.leaked ==> t < w.begun)
    && w.ledger.activeLeases == |w.live| + |w.leaked|
    && w.ledger.activeLeases == w.begun - w.retired
  }

  ghost predicate LogInv(l: Ledger) {
    && l.nextFailureId == |l.failures|
    && forall i :: 0 <= i < |l.failures| ==> l.failures[i].id == i + 1
  }

  /** Publication touches neither leases nor revision; epochs and the log only grow,
      and a request is consumed only by a newer epoch. */
  lemma PublishKeeps(l: Ledger, o: Outcome)
    ensures var p := Publish(l, o);
            && p.activeLeases == l.activeLeases && p.revision == l.revision
            && l.epoch <= p.epoch
            && (l.explicitRequest && !p.explicitRequest ==> l.epoch < p.epoch)
            && (LogInv(l) ==> LogInv(p))
            && l.failures <= p.failures
  {
  }

  /** What one operation does: nothing at all, or exactly one new revision. */
  lemma ApplyKeeps(l: Ledger, op: Op)
    requires Enabled(l, op)
    ensures var a := Apply(l, op);
            && (a == l || a.revision == l.revision + 1)
            && l.epoch <= a.epoch
            && (l.explicitRequest && !a.explicitRequest ==> l.epoch < a.epoch)
            && (LogInv(l) ==> LogInv(a))
            && l.failures <= a.failures
            && a.activeLeases - l.activeLeases ==
               match op
               case Begin => 1
               case BeginForSnapshot(revision) => if SnapshotBegins(l, revision) then 1 else 0
               case Finish(_) => -1
               case Abandon => -1
               case _ => 0
  {
    match op
    case Finish(outcome) => PublishKeeps(l.(activeLeases := l.activeLeases - 1), outcome);
    case RecordRequestFailure(outcome) => PublishKeeps(l.(explicitRequest := true), outcome);
    case _ =>
  }

  lemma StepLeaseInv(w: World, e: Event, w': World)
    requires LeaseInv(w) && Step(w, e, w')
    ensures LeaseInv(w')
  {
    match e
    case Lease(op) =>
      ApplyKeeps(w.ledger, op);
      if w'.begun != w.begun {
        LeaseBegun(w, w');
      }
    case Retire(lease, op) =>
      ApplyKeeps(w.ledger, op);
      LeaseRetired(w, lease, w');
    case Leak(lease) => LeaseLeaked(w, lease, w');
    case Other(op) => ApplyKeeps(w.ledger, op);
  }

  lemma LeaseBegun(w: World, w': World)
    requires LeaseInv(w) && w'.ledger.activeLeases == w.ledger.activeLeases + 1
    requires w'.live == w.live + {w.begun} && w'.leaked == w.leaked
    requires w'.begun == w.begun + 1 && w'.retired == w.retired
    ensures LeaseInv(w')
  {
    assert w.begun !in w.live;
  }

  lemma LeaseLeaked(w: World, lease: nat, w': World)
    requires LeaseInv(w) && lease in w.live
    requires w' == w.(live := w.live - {lease}, leaked := w.leaked + {lease})
    ensures LeaseInv(w')
  {
    assert w.live == w'.live + {lease};
  }

  lemma LeaseRetired(w: World, lease: nat, w': World)
    requires LeaseInv(w) && lease in w.live && w'.ledger.activeLeases == w.ledger.activeLeases - 1
    requires w'.live == w.live - {lease} && w'.leaked == w.leaked
    requires w'.begun == w.begun && w'.retired == w.retired + 1
    ensures LeaseInv(w')
  {
    assert w.live == w'.live + {lease};
  }

  ghost predicate Follows(l: Ledger, l': Ledger) {
    && (l' == l || l'.revision == l.revision + 1)
    && l.epoch <= l'.epoch
    && (l.explicitRequest && !l'.explicitRequest ==> l.epoch < l'.epoch)
    && (LogInv(l) ==> LogInv(l'))
    && l.failures <= l'.failures
  }

  lemma StepLedger(w: World, e: Event, w': World)
    requires Step(w, e, w')
    ensures Follows(w.ledger, w'.ledger)
  {
    if !e.Leak? {
      ApplyKeeps(w.ledger, e.op);
    }
  }

  ghost predicate IsRun(worlds: seq<World>, events: seq<Event>) {
    && |worlds| == |events| + 1
    && worlds[0] == NEW_WORLD
    && forall i :: 0 <= i < |events| ==> Step(worlds[i], events[i], worlds[i + 1])
  }

  lemma {:induction false} RunInv(worlds: seq<World>, events: seq<Event>, i: nat)
    requires IsRun(worlds, events) && i < |worlds|
    ensures LeaseInv(worlds[i]) && LogInv(worlds[i].ledger)
  {
    if i != 0 {
      RunInv(worlds, events, i - 1);
      StepLeaseInv(worlds[i - 1], events[i - 1], worlds[i]);
      StepLedger(worlds[i - 1], events[i - 1], worlds[i]);
    }
  }

  /** At every point of every run a held lease can be retired: "retired twice" cannot happen. */
  lemma HeldLeaseRetires(worlds: seq<World>, events: seq<Event>, i: nat, lease: nat, op: Op)
    requires IsRun(worlds, events) && i < |worlds| && lease in worlds[i].live
    ensures Enabled(worlds[i].ledger, op)
  {
    RunInv(worlds, events, i);
  }

  /** Active leases are the leases begun minus those retired; clients hold or leaked
      exactly that many; failure identities are 1, 2, 3 and so on. */
  lemma LeasesBalance(worlds: seq<World>, events: seq<Event>, i: nat)
    requires IsRun(worlds, events) && i < |worlds|
    ensures worlds[i].ledger.activeLeases == worlds[i].begun - worlds[i].retired
    ensures worlds[i].ledger.activeLeases == |worlds[i].live| + |worlds[i].leaked|
    ensures forall k :: 0 <= k < |worlds[i].ledger.failures| ==> worlds[i].ledger.failures[k].id == k + 1
  {
    RunInv(worlds, events, i);
  }

  /** No ABA: between two points of a run with the same revision nothing changed. */
  lemma {:induction false} SameRevisionSameLedger(worlds: seq<World>, events: seq<Event>, i: nat, j: nat)
    requires IsRun(worlds, events) && i <= j < |worlds|
    ensures worlds[i].ledger.revision <= worlds[j].ledger.revision
    ensures worlds[i].ledger.revision == worlds[j].ledger.revision ==> worlds[i].ledger == worlds[j].ledger
    decreases j
  {
    if i < j {
      SameRevisionSameLedger(worlds, events, i, j - 1);
      StepLedger(worlds[j - 1], events[j - 1], worlds[j]);
    }
  }

  ghost predicate BeginsForSnapshot(worlds: seq<World>, events: seq<Event>, i: nat, revision: nat)
    requires IsRun(worlds, events)
  {
    i < |events| && events[i] == Lease(BeginForSnapshot(revision)) && SnapshotBegins(worlds[i].ledger, revision)
  }

  /** For one snapshot revision at most one guarded begin succeeds, and it finds the
      ledger exactly as the snapshot did. */
  lemma SnapshotBeginsOnce(worlds: seq<World>, events: seq<Event>, revision: nat, i: nat, j: nat)
    requires IsRun(worlds, events)
    requires BeginsForSnapshot(worlds, events, i, revision) && BeginsForSnapshot(worlds, events, j, revision)
    ensures i == j
  {
    if i < j {
      SameRevisionSameLedger(worlds, events, i + 1, j);
    } else if j < i {
      SameRevisionSameLedger(worlds, events, j + 1, i);
    }
  }

  lemma SnapshotBeginsUnchanged(worlds: seq<World>, events: seq<Event>, snapshot: nat, i: nat)
    requires IsRun(worlds, events) && snapshot < |worlds|
    requires BeginsForSnapshot(worlds, events, i, worlds[snapshot].ledger.revision)
    ensures worlds[i].ledger == worlds[snapshot].ledger
  {
    if snapshot <= i {
      SameRevisionSameLedger(worlds, events, snapshot, i);
    } else {
      SameRevisionSameLedger(worlds, events, i, snapshot);
    }
  }

  lemma {:induction false} EpochMonotone(worlds: seq<World>, events: seq<Event>, i: nat, j: nat)
    requires IsRun(worlds, events) && i <= j < |worlds|
    ensures worlds[i].ledger.epoch <= worlds[j].ledger.epoch
    ensures worlds[i].ledger.failures <= worlds[j].ledger.failures
    decreases j
  {
    if i < j {
      EpochMonotone(worlds, events, i, j - 1);
      StepLedger(worlds[j - 1], events[j - 1], worlds[j]);
    }
  }

  /** A recorded request stays until a collection of a newer epoch consumes it. */
  lemma {:induction false} RequestsAreNotLost(worlds: seq<World>, events: seq<Event>, i: nat, j: nat)
    requires IsRun(worlds, events) && i <= j < |worlds|
    requires worlds[i].ledger.explicitRequest && !worlds[j].ledger.explicitRequest
    ensures worlds[i].ledger.epoch < worlds[j].ledger.epoch
    decreases j
  {
    StepLedger(worlds[j - 1], events[j - 1], worlds[j]);
    EpochMonotone(worlds, events, i, j - 1);
    if !worlds[j - 1].ledger.explicitRequest {
      RequestsAreNotLost(worlds, events, i, j - 1);
    }
  }
}
