/** What any published outcomes leave behind, poisoned heaps included, and what each
    operation does to the maintenance that is due. */
module GcOutcomes {
  import opened Basics
  import opened GcMaintenance

  // ---- Any outcomes, in the order they were published ----

  /** The newest epoch known before the outcomes or reported by one of them. */
  function NewestEpoch(start: nat, outcomes: seq<Outcome>): nat {
    if outcomes == [] then start
    else
      var before, last := NewestEpoch(start, outcomes[..|outcomes| - 1]), outcomes[|outcomes| - 1].heap;
      if last.Usable? && before < last.epoch then last.epoch else before
  }

  lemma {:induction false} NewestEpochIsNewest(l: Ledger, outcomes: seq<Outcome>)
    ensures IsNewest(NewestEpoch(l.epoch, outcomes), l, outcomes)
  {
    if outcomes != [] {
      var init, last := outcomes[..|outcomes| - 1], outcomes[|outcomes| - 1];
      NewestEpochIsNewest(l, init);
      assert forall o :: o in outcomes <==> o in init || o == last;
    }
  }

  /** The attempt left work behind: a failure, or finalizers still to run. */
  predicate LeavesWork(o: Outcome) {
    o.failure.Some? || (o.heap.Usable? && o.heap.pendingFinalizers != 0)
  }

  /** The i-th outcome settles the disposition: its heap is poisoned, its epoch is newer
      than all before it, or it left work behind at the newest of them. */
  predicate Decides(l: Ledger, outcomes: seq<Outcome>, i: nat)
    requires i < |outcomes|
  {
    match outcomes[i].heap
    case PoisonedSnapshot => true
    case Usable(epoch, _) =>
      var newest := NewestEpoch(l.epoch, outcomes[..i]);
      epoch > newest || (epoch == newest && LeavesWork(outcomes[i]))
  }

  /** What a settling outcome leaves. */
  function Verdict(o: Outcome): Disposition {
    if o.heap.PoisonedSnapshot? then Poisoned else if LeavesWork(o) then RetryRequired else Idle
  }

  ghost predicate DecidesLast(l: Ledger, outcomes: seq<Outcome>, i: nat) {
    && i < |outcomes| && Decides(l, outcomes, i)
    && forall j :: i < j < |outcomes| ==> !Decides(l, outcomes, j)
  }

  ghost predicate NoneDecides(l: Ledger, outcomes: seq<Outcome>) {
    forall j :: 0 <= j < |outcomes| ==> !Decides(l, outcomes, j)
  }

  lemma DecidesInit(l: Ledger, outcomes: seq<Outcome>, i: nat)
    requires i < |outcomes| - 1
    ensures Decides(l, outcomes[..|outcomes| - 1], i) <==> Decides(l, outcomes, i)
  {
    assert outcomes[..|outcomes| - 1][..i] == outcomes[..i];
  }

  lemma DecidedPush(l: Ledger, outcomes: seq<Outcome>)
    requires outcomes != [] && !Decides(l, outcomes, |outcomes| - 1)
    ensures NoneDecides(l, outcomes[..|outcomes| - 1]) ==> NoneDecides(l, outcomes)
    ensures forall i: nat :: DecidesLast(l, outcomes[..|outcomes| - 1], i) ==> DecidesLast(l, outcomes, i)
  {
    var init := outcomes[..|outcomes| - 1];
    forall i: nat | i < |init|
      ensures Decides(l, init, i) <==> Decides(l, outcomes, i)
    {
      DecidesInit(l, outcomes, i);
    }
  }

  /** The last settling outcome, or none: then the disposition is as it was. */
  lemma {:induction false} Decided(l: Ledger, outcomes: seq<Outcome>) returns (last: Option<nat>)
    ensures match last
            case Some(i) => DecidesLast(l, outcomes, i) && PublishAll(l, outcomes).disposition == Verdict(outcomes[i])
            case None => NoneDecides(l, outcomes) && PublishAll(l, outcomes).disposition == l.disposition
    ensures PublishAll(l, outcomes).epoch == NewestEpoch(l.epoch, outcomes)
    decreases |outcomes|
  {
    last := None;
    if outcomes != [] {
      var init := outcomes[..|outcomes| - 1];
      last := Decided(l, init);
      if Decides(l, outcomes, |outcomes| - 1) {
        last := Some(|outcomes| - 1);
      } else {
        DecidedPush(l, outcomes);
      }
    }
  }

  lemma {:induction false} RequestConsumed(l: Ledger, outcomes: seq<Outcome>)
    ensures var final := PublishAll(l, outcomes);
            && l.epoch <= final.epoch
            && final.explicitRequest == (l.explicitRequest && final.epoch == l.epoch)
            && final.activeLeases == l.activeLeases && final.revision == l.revision
  {
    if outcomes != [] {
      RequestConsumed(l, outcomes[..|outcomes| - 1]);
    }
  }

  lemma LastIsUnique(l: Ledger, outcomes: seq<Outcome>, i: nat, k: nat)
    requires DecidesLast(l, outcomes, i) && DecidesLast(l, outcomes, k)
    ensures i == k
  {
  }

  lemma DispositionExact(l: Ledger, outcomes: seq<Outcome>)
    ensures NoneDecides(l, outcomes) ==> PublishAll(l, outcomes).disposition == l.disposition
    ensures forall i: nat :: DecidesLast(l, outcomes, i) ==> PublishAll(l, outcomes).disposition == Verdict(outcomes[i])
    ensures NoneDecides(l, outcomes) || exists i: nat :: DecidesLast(l, outcomes, i)
  {
    var last := Decided(l, outcomes);
    if last.Some? {
      forall i: nat | DecidesLast(l, outcomes, i)
        ensures i == last.value
      {
        LastIsUnique(l, outcomes, i, last.value);
      }
    }
  }

  /** Whatever was published, poisoned heaps included: the epoch is the newest one seen,
      a request survives unless a newer epoch appeared, and the disposition is what the
      last settling outcome leaves, or what it was when none settles it. */
  lemma PublishAllExact(l: Ledger, outcomes: seq<Outcome>)
    ensures IsNewest(PublishAll(l, outcomes).epoch, l, outcomes)
    ensures PublishAll(l, outcomes).explicitRequest ==
            (l.explicitRequest && PublishAll(l, outcomes).epoch == l.epoch)
    ensures NoneDecides(l, outcomes) ==> PublishAll(l, outcomes).disposition == l.disposition
    ensures forall i: nat :: DecidesLast(l, outcomes, i) ==> PublishAll(l, outcomes).disposition == Verdict(outcomes[i])
    ensures NoneDecides(l, outcomes) || exists i: nat :: DecidesLast(l, outcomes, i)
  {
    DispositionExact(l, outcomes);
    EpochExact(l, outcomes);
    RequestConsumed(l, outcomes);
  }

  lemma EpochExact(l: Ledger, outcomes: seq<Outcome>)
    ensures IsNewest(PublishAll(l, outcomes).epoch, l, outcomes)
  {
    var last := Decided(l, outcomes);
    NewestEpochIsNewest(l, outcomes);
  }

  /** A poisoned heap marks the ledger and changes nothing else but the log. */
  lemma PoisonMarks(l: Ledger, o: Outcome)
    requires o.heap.PoisonedSnapshot?
    ensures Publish(l, o) == l.(disposition := Poisoned, failures := Publish(l, o).failures,
                                nextFailureId := Publish(l, o).nextFailureId)
  {
  }

  // ---- The failure log after any outcomes ----

  /** The ledger is poisoned when the i-th outcome arrives. */
  ghost predicate PoisonedAt(l: Ledger, outcomes: seq<Outcome>, i: nat)
    requires i <= |outcomes|
  {
    if NoneDecides(l, outcomes[..i]) then l.disposition.Poisoned?
    else exists k: nat :: DecidesLast(l, outcomes[..i], k) && outcomes[k].heap.PoisonedSnapshot?
  }

  lemma PoisonedAtExact(l: Ledger, outcomes: seq<Outcome>, i: nat)
    requires i <= |outcomes|
    ensures PoisonedAt(l, outcomes, i) <==> PublishAll(l, outcomes[..i]).disposition.Poisoned?
  {
    DispositionExact(l, outcomes[..i]);
  }

  /** Every report is logged, in order, but for poison reported to a poisoned ledger. */
  ghost function LoggedReports(l: Ledger, outcomes: seq<Outcome>, n: nat): seq<Report>
    requires n <= |outcomes|
  {
    if n == 0 then []
    else
      var o := outcomes[n - 1];
      LoggedReports(l, outcomes, n - 1) +
      if o.failure.None? || (o.failure.value.0.PoisonedHeap? && PoisonedAt(l, outcomes, n - 1)) then []
      else [o.failure.value]
  }

  lemma {:induction false} LogAfterAny(l: Ledger, outcomes: seq<Outcome>, n: nat)
    requires n <= |outcomes|
    ensures Logged(PublishAll(l, outcomes[..n])) == Logged(l) + LoggedReports(l, outcomes, n)
  {
    if n == 0 {
      assert Logged(l) + [] == Logged(l);
    } else {
      LogAfterAny(l, outcomes, n - 1);
      PoisonedAtExact(l, outcomes, n - 1);
      var before := PublishAll(l, outcomes[..n - 1]);
      PublishLogs(before, outcomes[n - 1]);
      assert outcomes[..n][..n - 1] == outcomes[..n - 1];
      var more := if Records(before, outcomes[n - 1]) then Reported(outcomes[n - 1]) else [];
      Associative(Logged(l), LoggedReports(l, outcomes, n - 1), more);
    }
  }

  // ---- Maintenance that is due ----

  /** A request is pending or an attempt must be repeated. */
  predicate Due(l: Ledger) {
    l.explicitRequest || l.disposition == RetryRequired
  }

  function OutcomeOf(op: Op): Option<Outcome> {
    match op
    case Finish(outcome) => Some(outcome)
    case RecordRequestFailure(outcome) => Some(outcome)
    case _ => None
  }

  /** The outcome can end what is due: a poisoned heap, or a newer collection that left
      no work behind. */
  predicate Settles(o: Outcome, epoch: nat) {
    o.heap.PoisonedSnapshot? || (o.heap.epoch > epoch && !LeavesWork(o))
  }

  /** When leases begin and end: a guarded begin needs its snapshot to be current,
      nobody collecting, and maintenance that is due. */
  lemma LeaseEffect(l: Ledger, op: Op)
    requires Enabled(l, op)
    ensures Apply(l, op).activeLeases > l.activeLeases <==>
            op.Begin? || (op.BeginForSnapshot? && l.revision == op.revision && l.activeLeases == 0 && Due(l))
    ensures Apply(l, op).activeLeases < l.activeLeases <==> op.Finish? || op.Abandon?
  {
    ApplyKeeps(l, op);
  }

  /** A request is raised by asking, by pressure on an idle ledger, and by a failed
      attempt to serve one whose outcome is not newer; nothing else raises it. */
  lemma RequestEffect(l: Ledger, op: Op)
    requires Enabled(l, op) && !l.explicitRequest
    ensures Apply(l, op).explicitRequest <==>
            match op
            case RecordRequest => true
            case PromotePressure => l.activeLeases == 0 && l.disposition == Idle
            case RecordRequestFailure(o) => o.heap.PoisonedSnapshot? || o.heap.epoch <= l.epoch
            case _ => false
  {
  }

  /** Without an outcome only abandoning a lease changes the disposition: the attempt
      must be repeated, even on a ledger that was poisoned. */
  lemma DispositionEffect(l: Ledger, op: Op)
    requires Enabled(l, op)
    ensures op.Abandon? ==> Apply(l, op).disposition == RetryRequired
    ensures OutcomeOf(op).None? && !op.Abandon? ==> Apply(l, op).disposition == l.disposition
    ensures OutcomeOf(op).Some? ==> Apply(l, op).disposition == PublishAll(l, [OutcomeOf(op).value]).disposition
  {
    if OutcomeOf(op).Some? {
      var o := OutcomeOf(op).value;
      assert [o][..0] == [];
      assert PublishAll(l, [o]) == Publish(l, o);
    }
  }

  lemma DueStep(l: Ledger, op: Op)
    requires Enabled(l, op) && Due(l) && !Due(Apply(l, op))
    ensures OutcomeOf(op).Some? && Settles(OutcomeOf(op).value, l.epoch)
  {
  }

  ghost predicate SettledAt(events: seq<Event>, epoch: nat, k: nat) {
    && k < |events| && (events[k].Retire? || events[k].Other?)
    && OutcomeOf(events[k].op).Some? && Settles(OutcomeOf(events[k].op).value, epoch)
  }

  /** Maintenance that is due stays due until an outcome settles it: no request, retry,
      lease, abandoned attempt or late report in between makes it forgotten. */
  lemma {:induction false} DueUntilSettled(worlds: seq<World>, events: seq<Event>, i: nat, j: nat)
    requires IsRun(worlds, events) && i <= j < |worlds|
    requires Due(worlds[i].ledger) && !Due(worlds[j].ledger)
    ensures exists k: nat :: i <= k < j && SettledAt(events, worlds[i].ledger.epoch, k)
    decreases j
  {
    EpochMonotone(worlds, events, i, j - 1);
    if Due(worlds[j - 1].ledger) {
      assert !events[j - 1].Leak?;
      DueStep(worlds[j - 1].ledger, events[j - 1].op);
      assert SettledAt(events, worlds[i].ledger.epoch, j - 1);
    } else {
      DueUntilSettled(worlds, events, i, j - 1);
    }
  }
}
