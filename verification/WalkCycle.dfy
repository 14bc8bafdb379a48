/** Brent cycle detection over a walk with one successor per step. */
module WalkCycle {
  import opened Arithmetic
  import opened Basics

  /** The detector's fields as a value. */
  datatype Detector<T> = Detector(saved: Option<T>, power: nat, sinceSaved: nat)

  function Start<T>(): Detector<T> {
    Detector(None, 1, 0)
  }

  predicate Accepts<T(==)>(detector: Detector<T>, item: T) {
    detector.saved != Some(item)
  }

  /** The detector after one accepted item. */
  function Accept<T>(detector: Detector<T>, item: T): Detector<T> {
    if detector.sinceSaved + 1 == detector.power then Detector(Some(item), 2 * detector.power, 0)
    else detector.(sinceSaved := detector.sinceSaved + 1)
  }

  class WalkCycle<T(==)> {
    var saved: Option<T>
    var power: nat
    var sinceSaved: nat

    function Fields(): Detector<T>
      reads this
    {
      Detector(saved, power, sinceSaved)
    }

    constructor ()
      ensures Fields() == Start()
    {
      saved, power, sinceSaved := None, 1, 0;
    }

    /** Records the walk's next item; false once the walk is back at the saved item. */
    method Advance(item: T) returns (accepted: bool)
      modifies this
      ensures accepted <==> Accepts(old(Fields()), item)
      ensures Fields() == if accepted then Accept(old(Fields()), item) else old(Fields())
    {
      if saved == Some(item) {
        return false;
      }
      sinceSaved := sinceSaved + 1;
      if sinceSaved == power {
        saved := Some(item);
        power := power * 2;
        sinceSaved := 0;
      }
      return true;
    }
  }

  // ---- Closed form ----

  /** The detector after the first n items of a walk, all accepted. */
  function After<T>(walk: nat -> T, n: nat): Detector<T> {
    if n == 0 then Start() else Accept(After(walk, n - 1), walk(n - 1))
  }

  predicate RejectsAt<T(==)>(walk: nat -> T, n: nat) {
    !Accepts(After(walk, n), walk(n))
  }

  /** The exponent of the detector's power after n items: 2^k - 1 <= n < 2^(k+1) - 1. */
  function Era(n: nat): (k: nat)
    ensures Pow2(k) - 1 <= n < 2 * Pow2(k) - 1
  {
    if n == 0 then 0
    else
      var k := Era(n - 1);
      if n < 2 * Pow2(k) - 1 then k else k + 1
  }

  /** The saved item is the one at index 2^k - 2, saved since 2^k - 1 items. */
  lemma {:induction false} AfterClosed<T>(walk: nat -> T, n: nat)
    ensures After(walk, n).power == Pow2(Era(n))
    ensures After(walk, n).sinceSaved == n - (Pow2(Era(n)) - 1)
    ensures After(walk, n).saved == if n == 0 then None else Some(walk(Pow2(Era(n)) - 2))
  {
    if n != 0 {
      AfterClosed(walk, n - 1);
    }
  }

  lemma {:induction false} Pow2Monotone(j: nat, k: nat)
    requires j < k
    ensures 2 * Pow2(j) <= Pow2(k)
  {
    if j + 1 < k {
      Pow2Monotone(j, k - 1);
    }
  }

  lemma EraUnique(n: nat, k: nat)
    requires Pow2(k) - 1 <= n < 2 * Pow2(k) - 1
    ensures Era(n) == k
  {
    if Era(n) < k {
      Pow2Monotone(Era(n), k);
    } else if k < Era(n) {
      Pow2Monotone(k, Era(n));
    }
  }

  /** The n-th item is compared with the one saved at the start of its era. */
  lemma RejectsClosed<T>(walk: nat -> T, n: nat, k: nat)
    requires 0 < n && Pow2(k) - 1 <= n < 2 * Pow2(k) - 1
    ensures k > 0 && (RejectsAt(walk, n) <==> walk(Pow2(k) - 2) == walk(n))
  {
    EraUnique(n, k);
    AfterClosed(walk, n);
  }

  /** A rejection names an item the walk has passed: never before a repeat. */
  lemma RejectionIsRepeat<T>(walk: nat -> T, n: nat)
    requires RejectsAt(walk, n)
    ensures 0 < n && Pow2(Era(n)) - 2 < n && walk(Pow2(Era(n)) - 2) == walk(n)
  {
    AfterClosed(walk, n);
  }

  /** A walk that never repeats is never rejected. */
  lemma AcyclicNeverRejected<T>(walk: nat -> T, length: nat, n: nat)
    requires forall i, j :: 0 <= i < j < length ==> walk(i) != walk(j)
    requires n < length
    ensures !RejectsAt(walk, n)
  {
    if RejectsAt(walk, n) {
      RejectionIsRepeat(walk, n);
    }
  }

  // ---- Cyclic walks ----

  /** A walk with a lead-in of `mu` items before a cycle of `lambda`. */
  ghost predicate Cycles<T(!new)>(walk: nat -> T, mu: nat, lambda: nat) {
    && lambda > 0
    && forall i: nat, j: nat :: i < j ==> (walk(i) == walk(j) <==> mu <= i && (j - i) % lambda == 0)
  }

  /** The least power of two that reaches both the lead-in and the cycle length. */
  ghost predicate LeastPower(k: nat, mu: nat, lambda: nat) {
    && Max(mu + 2, lambda) <= Pow2(k)
    && forall j: nat :: j < k ==> Pow2(j) < Max(mu + 2, lambda)
  }

  function FindPower(bound: nat, k: nat): (r: nat)
    requires forall j: nat :: j < k ==> Pow2(j) < bound
    ensures bound <= Pow2(r) && forall j: nat :: j < r ==> Pow2(j) < bound
    decreases bound - k
  {
    if bound <= Pow2(k) then k else FindPower(bound, k + 1)
  }

  /** Items accepted before the cycle is reported. */
  function DetectedAfter(mu: nat, lambda: nat): nat {
    Pow2(FindPower(Max(mu + 2, lambda), 0)) - 2 + lambda
  }

  lemma OneTurn(lambda: int)
    requires lambda > 0
    ensures lambda % lambda == 0
    ensures forall d :: 0 < d < lambda ==> d % lambda != 0
  {
    ModuloUnique(lambda, lambda, 1, 0);
  }

  lemma CyclesAt<T(!new)>(walk: nat -> T, mu: nat, lambda: nat, i: nat, j: nat)
    requires Cycles(walk, mu, lambda) && i < j
    ensures walk(i) == walk(j) <==> mu <= i && (j - i) % lambda == 0
  {
  }

  lemma RejectedAfterOneTurn<T(!new)>(walk: nat -> T, mu: nat, lambda: nat, k: nat)
    requires Cycles(walk, mu, lambda) && Max(mu + 2, lambda) <= Pow2(k)
    ensures RejectsAt(walk, Pow2(k) - 2 + lambda)
  {
    var saved, first := Pow2(k) - 2, Pow2(k) - 2 + lambda;
    RejectsClosed(walk, first, k);
    OneTurn(lambda);
    CyclesAt(walk, mu, lambda, saved, first);
  }

  lemma AcceptedBefore<T(!new)>(walk: nat -> T, mu: nat, lambda: nat, k: nat, n: nat)
    requires Cycles(walk, mu, lambda) && LeastPower(k, mu, lambda)
    requires n < Pow2(k) - 2 + lambda
    ensures !RejectsAt(walk, n)
  {
    if RejectsAt(walk, n) {
      RejectionIsRepeat(walk, n);
      var j := Era(n);
      var saved := Pow2(j) - 2;
      CyclesAt(walk, mu, lambda, saved, n);
      OneTurn(lambda);
      assert lambda <= n - saved;
      if k < j {
        Pow2Monotone(k, j);
      }
    }
  }

  /** Brent detection is exact: the first rejection comes after exactly
      2^k - 2 + lambda accepted items. */
  lemma DetectionExact<T(!new)>(walk: nat -> T, mu: nat, lambda: nat, k: nat)
    requires Cycles(walk, mu, lambda) && LeastPower(k, mu, lambda)
    ensures RejectsAt(walk, Pow2(k) - 2 + lambda)
    ensures forall n: nat :: n < Pow2(k) - 2 + lambda ==> !RejectsAt(walk, n)
  {
    RejectedAfterOneTurn(walk, mu, lambda, k);
    forall n: nat | n < Pow2(k) - 2 + lambda
      ensures !RejectsAt(walk, n)
    {
      AcceptedBefore(walk, mu, lambda, k, n);
    }
  }

  lemma PowerBounds(mu: nat, lambda: nat, k: nat)
    requires lambda > 0 && LeastPower(k, mu, lambda)
    ensures mu + lambda <= Pow2(k) - 2 + lambda <= 2 * Max(mu, lambda) + lambda
  {
    assert k > 0;
    assert Pow2(k - 1) < Max(mu + 2, lambda);
  }

  /** No walk reports a cycle before it has passed every distinct item, and none goes
      further than twice the longer of lead-in and cycle plus one more turn. */
  lemma DetectionBounds<T(!new)>(walk: nat -> T, mu: nat, lambda: nat)
    requires Cycles(walk, mu, lambda)
    ensures RejectsAt(walk, DetectedAfter(mu, lambda))
    ensures forall n: nat :: n < DetectedAfter(mu, lambda) ==> !RejectsAt(walk, n)
    ensures mu + lambda <= DetectedAfter(mu, lambda) <= 2 * Max(mu, lambda) + lambda
  {
    var k := FindPower(Max(mu + 2, lambda), 0);
    DetectionExact(walk, mu, lambda, k);
    PowerBounds(mu, lambda, k);
  }

  /** The upper bound is reached exactly when the cycle is no longer than the lead-in
      and the lead-in is one short of a power of two. */
  lemma BoundAttained(mu: nat, lambda: nat)
    requires lambda > 0
    ensures DetectedAfter(mu, lambda) == 2 * Max(mu, lambda) + lambda <==>
            lambda <= mu && exists j: nat :: Pow2(j) == mu + 1
  {
    var k := FindPower(Max(mu + 2, lambda), 0);
    assert k > 0 && Pow2(k) == 2 * Pow2(k - 1) && Pow2(k - 1) < Max(mu + 2, lambda);
    if lambda <= mu && exists j: nat :: Pow2(j) == mu + 1 {
      var j: nat :| Pow2(j) == mu + 1;
      assert Pow2(j + 1) == 2 * Pow2(j);
      if k <= j {
        Pow2Monotone(k, j);
      } else {
        assert k <= j + 1;
      }
    }
  }

  // ---- Every deterministic walk that repeats is cyclic ----

  /** The walk that follows one successor per step. */
  function Walk<T>(start: T, successor: T -> T, n: nat): T {
    if n == 0 then start else successor(Walk(start, successor, n - 1))
  }

  function Steps<T>(start: T, successor: T -> T): nat -> T {
    (n: nat) => Walk(start, successor, n)
  }

  lemma {:induction false} WalkShift<T>(start: T, successor: T -> T, i: nat, j: nat, n: nat)
    requires Walk(start, successor, i) == Walk(start, successor, j)
    ensures Walk(start, successor, i + n) == Walk(start, successor, j + n)
  {
    if n != 0 {
      WalkShift(start, successor, i, j, n - 1);
    }
  }

  /** The index below mu + lambda that stands for n. */
  function Canonical(mu: nat, lambda: nat, n: nat): (c: nat)
    requires lambda > 0
    ensures c < mu + lambda
    ensures n < mu + lambda ==> c == n
    decreases n
  {
    if n < mu + lambda then n else Canonical(mu, lambda, n - lambda)
  }

  lemma {:induction false} CanonicalModulo(mu: nat, lambda: nat, n: nat)
    requires lambda > 0
    ensures n < mu ==> Canonical(mu, lambda, n) == n
    ensures mu <= n ==> mu <= Canonical(mu, lambda, n) && Canonical(mu, lambda, n) - mu == (n - mu) % lambda
    decreases n
  {
    if mu + lambda <= n {
      CanonicalModulo(mu, lambda, n - lambda);
      assert (n - mu) % lambda == (n - mu - lambda) % lambda by { ModuloShift(n - mu - lambda, lambda); }
    } else if mu <= n {
      assert (n - mu) % lambda == n - mu by { ModuloSmall(n - mu, lambda); }
    }
  }

  lemma {:induction false} WalkCanonical<T>(start: T, successor: T -> T, mu: nat, lambda: nat, n: nat)
    requires lambda > 0 && Walk(start, successor, mu) == Walk(start, successor, mu + lambda)
    ensures Walk(start, successor, n) == Walk(start, successor, Canonical(mu, lambda, n))
    decreases n
  {
    if mu + lambda <= n {
      WalkShift(start, successor, mu, mu + lambda, n - mu - lambda);
      WalkCanonical(start, successor, mu, lambda, n - lambda);
    }
  }

  /** A deterministic walk whose first repeat comes back to index mu at mu + lambda
      has exactly that lead-in and that cycle. */
  lemma FirstRepeatCycles<T(!new)>(start: T, successor: T -> T, mu: nat, lambda: nat)
    requires lambda > 0 && Walk(start, successor, mu) == Walk(start, successor, mu + lambda)
    requires forall i: nat, j: nat :: i < j < mu + lambda ==>
                                        Walk(start, successor, i) != Walk(start, successor, j)
    ensures Cycles(Steps(start, successor), mu, lambda)
  {
    var walk := Steps(start, successor);
    forall i: nat, j: nat | i < j
      ensures walk(i) == walk(j) <==> mu <= i && (j - i) % lambda == 0
    {
      WalkCanonical(start, successor, mu, lambda, i);
      WalkCanonical(start, successor, mu, lambda, j);
      CanonicalModulo(mu, lambda, i);
      CanonicalModulo(mu, lambda, j);
      ModuloDifference(i - mu, j - mu, lambda);
    }
  }

  /** Any repeat in a deterministic walk gives a lead-in and a cycle length. */
  lemma {:induction false} RepeatCycles<T(!new)>(start: T, successor: T -> T, i: nat, j: nat)
    returns (mu: nat, lambda: nat)
    requires i < j && Walk(start, successor, i) == Walk(start, successor, j)
    ensures mu + lambda <= j && Cycles(Steps(start, successor), mu, lambda)
    decreases j
  {
    if p: nat, q: nat :| p < q < j && Walk(start, successor, p) == Walk(start, successor, q) {
      mu, lambda := RepeatCycles(start, successor, p, q);
    } else {
      mu, lambda := i, j - i;
      FirstRepeatCycles(start, successor, mu, lambda);
    }
  }

  /** The detector rejects a deterministic walk at some point exactly when it repeats. */
  lemma DetectsExactlyRepeats<T(!new)>(start: T, successor: T -> T)
    ensures (exists n: nat :: RejectsAt(Steps(start, successor), n)) <==>
            (exists i: nat, j: nat :: i < j && Walk(start, successor, i) == Walk(start, successor, j))
  {
    var walk := Steps(start, successor);
    if n: nat :| RejectsAt(walk, n) {
      RejectionIsRepeat(walk, n);
      var i: nat := Pow2(Era(n)) - 2;
      assert i < n && Walk(start, successor, i) == Walk(start, successor, n);
    }
    if i: nat, j: nat :| i < j && Walk(start, successor, i) == Walk(start, successor, j) {
      var mu, lambda := RepeatCycles(start, successor, i, j);
      DetectionBounds(walk, mu, lambda);
    }
  }
}
