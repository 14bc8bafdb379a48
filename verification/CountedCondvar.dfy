/** The counted condition variable and the activity generation it guards, as a
    state machine over the atomic steps of any number of threads. A notifier that
    counts no waiter skips the wake; no wakeup is ever lost. */
module CountedCondvar {
  import opened Basics

  type Tid = nat

  /** Where a thread stands in `wait_for_change` or in a publication. */
  datatype Pc =
    | Idle
    // wait_for_change(observed)
    | WaitLock(observed: nat)    // about to lock the mutex
    | Checking(observed: nat)    // locked, comparing the generation
    | Registered(observed: nat)  // locked and counted, about to sleep
    | Sleeping(observed: nat)    // counted, mutex released
    | Woken(observed: nat)       // counted, about to lock again
    | Reacquired(observed: nat)  // locked and counted, about to leave the count
    // advance: notification happens after the critical section, or inside it
    | PublishLock                // about to lock the mutex
    | Publishing                 // locked, about to raise the generation
    | Published(locked: bool)    // about to read the waiter count
    | Waking(locked: bool)       // read a non-zero count, about to notify
    | Releasing                  // locked, about to unlock
  {
    predicate HoldsMutex() {
      Checking? || Registered? || Reacquired? || Publishing? || Releasing? ||
      ((Published? || Waking?) && locked)
    }

    /** Inside a counted wait. */
    predicate Counted() {
      Registered? || Sleeping? || Woken? || Reacquired?
    }

    /** Inside `wait_for_change`. */
    predicate Waits() {
      WaitLock? || Checking? || Counted()
    }

    /** Has changed the generation and not yet notified. */
    predicate OwesNotify() {
      Published? || Waking?
    }

    /** Own steps left before the notification is out; none of them can block. */
    function StepsToNotify(): nat
      requires OwesNotify()
    {
      match this
      case Published(locked) => if locked then 3 else 2
      case Waking(_) => 1
    }
  }

  datatype State = State(generation: nat, mutex: Option<Tid>, waiters: int, pcs: map<Tid, Pc>)

  function Goto(s: State, t: Tid, pc: Pc): State {
    s.(pcs := s.pcs[t := pc])
  }

  function NotifyAll(s: State): State {
    s.(pcs := map u | u in s.pcs ::
         if s.pcs[u].Sleeping? then Woken(s.pcs[u].observed) else s.pcs[u])
  }

  ghost predicate Init(s: State) {
    && s.mutex.None? && s.waiters == 0
    && forall t :: t in s.pcs ==> s.pcs[t].Idle?
  }

  /** One atomic step of thread `t`. A sleeper may also wake spuriously. */
  ghost predicate Next(s: State, t: Tid, s': State) {
    t in s.pcs &&
    match s.pcs[t]
    case Idle =>
      && t in s'.pcs && (s'.pcs[t].WaitLock? || s'.pcs[t].PublishLock?)
      && s' == Goto(s, t, s'.pcs[t])
    case WaitLock(observed) =>
      s.mutex.None? && s' == Goto(s, t, Checking(observed)).(mutex := Some(t))
    case Checking(observed) =>
      if s.generation == observed
      then s' == Goto(s, t, Registered(observed)).(waiters := s.waiters + 1)
      else s' == Goto(s, t, Idle).(mutex := None)
    case Registered(observed) =>
      s' == Goto(s, t, Sleeping(observed)).(mutex := None)
    case Sleeping(observed) =>
      s' == Goto(s, t, Woken(observed))
    case Woken(observed) =>
      s.mutex.None? && s' == Goto(s, t, Reacquired(observed)).(mutex := Some(t))
    case Reacquired(observed) =>
      s' == Goto(s, t, Checking(observed)).(waiters := s.waiters - 1)
    case PublishLock =>
      s.mutex.None? && s' == Goto(s, t, Publishing).(mutex := Some(t))
    case Publishing =>
      s' == Goto(s, t, Published(true)).(generation := s.generation + 1)
    case Published(locked) =>
      || (locked && s' == Goto(s, t, Published(false)).(mutex := None))
      || (s.waiters != 0 && s' == Goto(s, t, Waking(locked)))
      || (s.waiters == 0 && s' == Goto(s, t, if locked then Releasing else Idle))
    case Waking(locked) =>
      s' == Goto(NotifyAll(s), t, if locked then Releasing else Idle)
    case Releasing =>
      s' == Goto(s, t, Idle).(mutex := None)
  }

  // ---- The invariant ----

  ghost function InsideWait(s: State): set<Tid> {
    set t | t in s.pcs && s.pcs[t].Counted()
  }

  /** The mutex is held by exactly the thread that believes it holds it. */
  ghost predicate MutexInv(s: State) {
    && (forall t :: t in s.pcs ==> (s.pcs[t].HoldsMutex() <==> s.mutex == Some(t)))
    && (s.mutex.Some? ==> s.mutex.value in s.pcs)
  }

  /** The count equals the number of threads inside a wait. */
  ghost predicate CountInv(s: State) {
    s.waiters == |InsideWait(s)|
  }

  /** A registered thread, still holding the mutex, has seen the current generation. */
  ghost predicate RegisteredInv(s: State) {
    forall t :: t in s.pcs && s.pcs[t].Registered? ==> s.pcs[t].observed == s.generation
  }

  ghost predicate Stale(s: State, t: Tid) {
    t in s.pcs && s.pcs[t].Sleeping? && s.pcs[t].observed != s.generation
  }

  ghost predicate Owing(s: State, n: Tid) {
    n in s.pcs && s.pcs[n].OwesNotify()
  }

  /** While a thread sleeps past a change, some notifier still owes its notification. */
  ghost predicate WakeupInv(s: State) {
    forall t :: Stale(s, t) ==> exists n :: Owing(s, n)
  }

  ghost predicate Inv(s: State) {
    MutexInv(s) && CountInv(s) && RegisteredInv(s) && WakeupInv(s)
  }

  lemma InitInv(s: State)
    requires Init(s)
    ensures Inv(s)
  {
    assert InsideWait(s) == {};
  }

  lemma MutexStep(s: State, t: Tid, s': State)
    requires MutexInv(s) && Next(s, t, s')
    ensures MutexInv(s')
  {
  }

  lemma RegisteredStep(s: State, t: Tid, s': State)
    requires MutexInv(s) && RegisteredInv(s) && Next(s, t, s')
    ensures RegisteredInv(s')
  {
  }

  /** Only registering and leaving change the set of waiting threads, and the count with it. */
  lemma CountStep(s: State, t: Tid, s': State)
    requires CountInv(s) && Next(s, t, s')
    ensures CountInv(s')
  {
    StepKeepsOthers(s, t, s');
    InsideChange(s, t, s');
    if !(s.pcs[t].Checking? && s.generation == s.pcs[t].observed) && !s.pcs[t].Reacquired? {
      StepKeepsOwn(s, t, s');
    }
  }

  lemma Without(threads: set<Tid>, t: Tid)
    ensures |threads| == |threads - {t}| + if t in threads then 1 else 0
  {
    if t in threads {
      assert threads == (threads - {t}) + {t};
    } else {
      assert threads == threads - {t};
    }
  }

  /** The set of waiting threads changes only by the thread that steps. */
  lemma InsideChange(s: State, t: Tid, s': State)
    requires t in s.pcs && s'.pcs.Keys == s.pcs.Keys
    requires forall u :: u in s.pcs && u != t ==> s'.pcs[u].Counted() == s.pcs[u].Counted()
    ensures |InsideWait(s')| == |InsideWait(s)| +
            (if s'.pcs[t].Counted() then 1 else 0) - (if s.pcs[t].Counted() then 1 else 0)
  {
    var inside, inside' := InsideWait(s), InsideWait(s');
    assert inside - {t} == inside' - {t};
    Without(inside, t);
    Without(inside', t);
  }

  lemma StepKeepsOthers(s: State, t: Tid, s': State)
    requires Next(s, t, s')
    ensures s'.pcs.Keys == s.pcs.Keys
    ensures forall u :: u in s.pcs && u != t ==> s'.pcs[u].Counted() == s.pcs[u].Counted()
  {
  }

  lemma StepKeepsOwn(s: State, t: Tid, s': State)
    requires Next(s, t, s')
    requires !(s.pcs[t].Checking? && s.generation == s.pcs[t].observed) && !s.pcs[t].Reacquired?
    ensures s'.pcs[t].Counted() == s.pcs[t].Counted() && s'.waiters == s.waiters
  {
  }

  lemma CountedAtLeastOne(s: State, t: Tid)
    requires CountInv(s) && t in s.pcs && s.pcs[t].Counted()
    ensures s.waiters > 0
  {
    assert t in InsideWait(s);
  }

  /** A sleeper and a notifier that owes it: every step either wakes the sleeper, or
      leaves it asleep with the debt standing, one own step of the notifier closer. */
  lemma DebtStep(s: State, u: Tid, s': State, t: Tid, n: Tid)
    requires CountInv(s) && Next(s, u, s')
    requires t in s.pcs && s.pcs[t].Sleeping? && Owing(s, n)
    ensures t in s'.pcs
    ensures s'.pcs[t].Sleeping? ==>
              && s'.pcs[t] == s.pcs[t] && Owing(s', n)
              && if u == n then s'.pcs[n].StepsToNotify() < s.pcs[n].StepsToNotify()
                 else s'.pcs[n].StepsToNotify() == s.pcs[n].StepsToNotify()
  {
    CountedAtLeastOne(s, t);
  }

  lemma WakeupStep(s: State, u: Tid, s': State)
    requires Inv(s) && Next(s, u, s')
    ensures WakeupInv(s')
  {
    forall t | Stale(s', t)
      ensures exists n :: Owing(s', n)
    {
      if u == t || s.generation != s'.generation {
        assert s.pcs[u].Publishing? && Owing(s', u);
      } else {
        assert s.pcs[t] == s'.pcs[t];
        assert Stale(s, t);
        var n :| Owing(s, n);
        DebtStep(s, u, s', t, n);
      }
    }
  }

  lemma StepInv(s: State, t: Tid, s': State)
    requires Inv(s) && Next(s, t, s')
    ensures Inv(s')
  {
    MutexStep(s, t, s');
    RegisteredStep(s, t, s');
    CountStep(s, t, s');
    WakeupStep(s, t, s');
  }

  // ---- Whole runs ----

  ghost predicate IsRun(states: seq<State>, actors: seq<Tid>) {
    && |states| == |actors| + 1
    && Init(states[0])
    && forall i :: 0 <= i < |actors| ==> Next(states[i], actors[i], states[i + 1])
  }

  lemma {:induction false} RunInv(states: seq<State>, actors: seq<Tid>, i: nat)
    requires IsRun(states, actors) && i < |states|
    ensures Inv(states[i])
  {
    if i == 0 {
      InitInv(states[0]);
    } else {
      RunInv(states, actors, i - 1);
      StepInv(states[i - 1], actors[i - 1], states[i]);
    }
  }

  /** No lost wakeup: at every point of every run, a thread asleep although the
      generation moved is owed a notification, whose notifier counts at least one waiter. */
  lemma NoLostWakeup(states: seq<State>, actors: seq<Tid>, i: nat, t: Tid)
    requires IsRun(states, actors) && i < |states| && Stale(states[i], t)
    ensures states[i].waiters > 0
    ensures exists n :: Owing(states[i], n)
  {
    RunInv(states, actors, i);
    CountedAtLeastOne(states[i], t);
  }

  /** With no notifier between publication and notification, every sleeper is current. */
  lemma QuiescentSleepersAreCurrent(states: seq<State>, actors: seq<Tid>, i: nat, t: Tid)
    requires IsRun(states, actors) && i < |states|
    requires forall n :: n in states[i].pcs ==> !states[i].pcs[n].OwesNotify()
    requires t in states[i].pcs && states[i].pcs[t].Sleeping?
    ensures states[i].pcs[t].observed == states[i].generation
  {
    RunInv(states, actors, i);
    assert !Stale(states[i], t);
  }

  /** The count is exact at every point of every run, and the mutex exclusive. */
  lemma CountIsExact(states: seq<State>, actors: seq<Tid>, i: nat)
    requires IsRun(states, actors) && i < |states|
    ensures states[i].waiters == |InsideWait(states[i])|
    ensures forall t, u | t in states[i].pcs && u in states[i].pcs ::
              states[i].pcs[t].HoldsMutex() && states[i].pcs[u].HoldsMutex() ==> t == u
  {
    RunInv(states, actors, i);
  }

  ghost predicate WaitsOn(s: State, t: Tid, observed: nat) {
    t in s.pcs && s.pcs[t].Waits() && s.pcs[t].observed == observed
  }

  /** A waiting thread goes on waiting for the same generation, or it holds the mutex,
      finds another generation and leaves. */
  lemma WaitStep(s: State, u: Tid, s': State, t: Tid, observed: nat)
    requires Next(s, u, s') && WaitsOn(s, t, observed)
    ensures WaitsOn(s', t, observed) ||
            (u == t && s.pcs[t] == Checking(observed) && s.generation != observed && s'.pcs[t].Idle?)
  {
  }

  /** The wait that `t` is in at point `i` ends after point `k`, on another generation. */
  ghost predicate LeavesAfter(states: seq<State>, i: nat, k: nat, t: Tid, observed: nat) {
    && i <= k && k + 1 < |states| && states[k].generation != observed
    && (forall m :: i <= m <= k ==> WaitsOn(states[m], t, observed))
    && t in states[k + 1].pcs && states[k + 1].pcs[t].Idle?
  }

  /** A wait ends only on a change: a thread that has entered `wait_for_change(observed)`
      is inside it at every later point up to one where the generation differs. */
  lemma {:induction false} WaitEndsOnChange(states: seq<State>, actors: seq<Tid>, i: nat, j: nat,
                                            t: Tid, observed: nat)
    requires IsRun(states, actors) && i <= j < |states| && WaitsOn(states[i], t, observed)
    requires !WaitsOn(states[j], t, observed)
    ensures exists k: nat :: k < j && LeavesAfter(states, i, k, t, observed)
    decreases j - i
  {
    WaitStep(states[i], actors[i], states[i + 1], t, observed);
    if WaitsOn(states[i + 1], t, observed) {
      WaitEndsOnChange(states, actors, i + 1, j, t, observed);
      var k: nat :| k < j && LeavesAfter(states, i + 1, k, t, observed);
      assert LeavesAfter(states, i, k, t, observed);
    } else {
      assert LeavesAfter(states, i, i, t, observed);
    }
  }

  function StepsBy(n: Tid, actors: seq<Tid>): nat {
    if actors == [] then 0
    else (if actors[0] == n then 1 else 0) + StepsBy(n, actors[1..])
  }

  /** However the other threads interleave, a notifier that owes a notification wakes
      every sleeper within its own next three steps at most. */
  lemma {:induction false} WokenWithinThreeSteps(states: seq<State>, actors: seq<Tid>, i: nat, j: nat,
                                                 t: Tid, n: Tid)
    requires IsRun(states, actors) && i <= j < |states|
    requires t in states[i].pcs && states[i].pcs[t].Sleeping? && Owing(states[i], n)
    requires StepsBy(n, actors[i..j]) >= states[i].pcs[n].StepsToNotify()
    ensures exists k :: i <= k <= j && t in states[k].pcs && !states[k].pcs[t].Sleeping?
    decreases j - i
  {
    assert i < j;
    RunInv(states, actors, i);
    DebtStep(states[i], actors[i], states[i + 1], t, n);
    if states[i + 1].pcs[t].Sleeping? {
      assert actors[i..j][1..] == actors[i + 1..j];
      WokenWithinThreeSteps(states, actors, i + 1, j, t, n);
    }
  }
}
