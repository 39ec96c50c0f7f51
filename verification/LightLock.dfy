/** The light lock: a word that carries the lock state in its sign and the number of
    registered waiters in its magnitude, with the kernel's address arbiter to sleep on.

    Threads are numbered; a thread's program counter says which step of
    Lock / TryLock / Unlock it takes next. Each action is one atomic access: a
    completed load-exclusive / store-exclusive loop, or one arbiter call. */
module LightLock {
  import opened Counting
  import opened Machines

  datatype Pc =
    | Idle       // outside the lock's functions, not holding it
    | ToWait     // registered as a waiter, about to call the arbiter
    | Asleep     // registered and asleep in the kernel
    | Awake      // registered and about to try again
    | Holding    // inside the critical section
    | Signaling  // unlocked the word, about to signal

  datatype Lock = Lock(word: int, pcs: seq<Pc>)

  datatype Action =
    | Enter(t: nat)
    | Arbitrate(t: nat)
    | Retry(t: nat)
    | TryLock(t: nat)
    | Unlock(t: nat)
    | Wake(t: nat, sleeper: nat)
    | WakeNobody(t: nat)

  // The words stored by the four exclusive loops.

  function EnterWord(word: int): int {
    var val := if word == 0 then 1 else word;
    if val < 0 then val - 1 else -val
  }

  function RetryWord(word: int): int {
    -(word - 1)
  }

  function TryLockWord(word: int): int {
    -(if word == 0 then 1 else word)
  }

  function UnlockWord(word: int): int {
    -word
  }

  // Per-thread weights.

  function Holders(pc: Pc): nat { if pc.Holding? then 1 else 0 }
  function Waiters(pc: Pc): nat { if pc.ToWait? || pc.Asleep? || pc.Awake? then 1 else 0 }
  function Sleepers(pc: Pc): nat { if pc.Asleep? then 1 else 0 }
  function Movers(pc: Pc): nat { if pc.ToWait? || pc.Awake? || pc.Signaling? then 1 else 0 }
  function Busy(pc: Pc): nat { if pc.Idle? then 0 else 1 }

  ghost predicate Init(s: Lock) {
    (s.word == 1 || s.word == 0) && forall i :: 0 <= i < |s.pcs| ==> s.pcs[i] == Idle
  }

  predicate At(s: Lock, t: nat, pc: Pc) {
    t < |s.pcs| && s.pcs[t] == pc
  }

  ghost predicate Enabled(s: Lock, a: Action) {
    match a
    case Enter(t) => At(s, t, Idle)
    case Arbitrate(t) => At(s, t, ToWait)
    case Retry(t) => At(s, t, Awake)
    case TryLock(t) => At(s, t, Idle)
    case Unlock(t) => At(s, t, Holding)
    case Wake(t, u) => At(s, t, Signaling) && At(s, u, Asleep)
    case WakeNobody(t) => At(s, t, Signaling) && Total(s.pcs, Sleepers) == 0
  }

  function Move(s: Lock, t: nat, word: int, pc: Pc): Lock
    requires t < |s.pcs|
  {
    Lock(word, s.pcs[t := pc])
  }

  ghost function Do(s: Lock, a: Action): Lock
    requires Enabled(s, a)
  {
    match a
    case Enter(t) => Move(s, t, EnterWord(s.word), if s.word < 0 then ToWait else Holding)
    case Arbitrate(t) => Move(s, t, s.word, if s.word < 0 then Asleep else Awake)
    case Retry(t) =>
      if s.word < 0 then Move(s, t, s.word, ToWait) else Move(s, t, RetryWord(s.word), Holding)
    case TryLock(t) =>
      if s.word < 0 then s else Move(s, t, TryLockWord(s.word), Holding)
    case Unlock(t) =>
      Move(s, t, UnlockWord(s.word), if UnlockWord(s.word) > 1 then Signaling else Idle)
    case Wake(t, u) => Lock(s.word, s.pcs[t := Idle][u := Awake])
    case WakeNobody(t) => Move(s, t, s.word, Idle)
  }

  ghost predicate Next(s: Lock, s': Lock) {
    exists a :: Enabled(s, a) && s' == Do(s, a)
  }

  /** The encoding of the word, and the reason a sleeper is never forgotten. */
  ghost predicate Inv(s: Lock) {
    var holders := Total(s.pcs, Holders);
    var waiters := Total(s.pcs, Waiters);
    && holders <= 1
    && (s.word < 0 <==> holders == 1)
    && (s.word < 0 ==> -s.word == waiters + 1)
    && (s.word > 0 ==> s.word == waiters + 1)
    && (s.word == 0 ==> Total(s.pcs, Busy) == 0)
    && (s.word > 0 && Total(s.pcs, Sleepers) > 0 ==> Total(s.pcs, Movers) > 0)
  }

  /** What moving one thread does to every count. */
  lemma MoveTotals(pcs: seq<Pc>, t: nat, pc: Pc)
    requires t < |pcs|
    ensures Total(pcs[t := pc], Holders) == Total(pcs, Holders) - Holders(pcs[t]) + Holders(pc)
    ensures Total(pcs[t := pc], Waiters) == Total(pcs, Waiters) - Waiters(pcs[t]) + Waiters(pc)
    ensures Total(pcs[t := pc], Sleepers) == Total(pcs, Sleepers) - Sleepers(pcs[t]) + Sleepers(pc)
    ensures Total(pcs[t := pc], Movers) == Total(pcs, Movers) - Movers(pcs[t]) + Movers(pc)
    ensures Total(pcs[t := pc], Busy) == Total(pcs, Busy) - Busy(pcs[t]) + Busy(pc)
    ensures Total(pcs, Holders) >= Holders(pcs[t]) && Total(pcs, Waiters) >= Waiters(pcs[t])
    ensures Total(pcs, Busy) >= Busy(pcs[t])
    ensures Total(pcs, Sleepers) <= Total(pcs, Waiters) <= Total(pcs, Busy)
  {
    TotalUpdate(pcs, t, pc, Holders);
    TotalUpdate(pcs, t, pc, Waiters);
    TotalUpdate(pcs, t, pc, Sleepers);
    TotalUpdate(pcs, t, pc, Movers);
    TotalUpdate(pcs, t, pc, Busy);
    TotalMonotone(pcs, Sleepers, Waiters);
    TotalMonotone(pcs, Waiters, Busy);
  }

  lemma InitInv(s: Lock)
    requires Init(s)
    ensures Inv(s)
  {
    TotalZero(s.pcs, Holders);
    TotalZero(s.pcs, Waiters);
    TotalZero(s.pcs, Sleepers);
    TotalZero(s.pcs, Busy);
  }

  lemma StepInv(s: Lock, a: Action)
    requires Inv(s) && Enabled(s, a)
    ensures Inv(Do(s, a))
  {
    var s' := Do(s, a);
    MoveTotals(s.pcs, a.t, s'.pcs[a.t]);
    if a.Wake? {
      MoveTotals(s.pcs[a.t := Idle], a.sleeper, Awake);
    }
  }

  lemma ReachableInv(s: Lock)
    requires Reachable(Init, Next, s)
    ensures Inv(s)
  {
    forall s | Init(s) ensures Inv(s) { InitInv(s); }
    forall s, s' | Inv(s) && Next(s, s') ensures Inv(s') {
      var a :| Enabled(s, a) && s' == Do(s, a);
      StepInv(s, a);
    }
    Invariance(Init, Next, Inv, s);
  }

  /** Mutual exclusion, for any number of threads and any interleaving. */
  lemma MutualExclusion(s: Lock, t: nat, u: nat)
    requires Reachable(Init, Next, s)
    requires At(s, t, Holding) && At(s, u, Holding)
    ensures t == u
  {
    ReachableInv(s);
    if t != u {
      TotalAtLeastTwo(s.pcs, t, u, Holders);
    }
  }

  /** The sign of the word says whether the lock is held and its magnitude, less one,
      how many waiters are registered. Zero is only ever seen on a lock nobody uses,
      so the retry loop, which does not treat zero specially, never meets it; and the
      magnitude never outgrows the number of threads. */
  lemma WordEncoding(s: Lock)
    requires Reachable(Init, Next, s)
    ensures s.word < 0 <==> exists t :: At(s, t, Holding)
    ensures s.word != 0 ==> (if s.word < 0 then -s.word else s.word) - 1 == Total(s.pcs, Waiters)
    ensures s.word == 0 ==> forall t :: 0 <= t < |s.pcs| ==> s.pcs[t] == Idle
    ensures forall t :: At(s, t, Awake) ==> s.word != 0
    ensures -|s.pcs| - 1 <= s.word <= |s.pcs| + 1
  {
    ReachableInv(s);
    if s.word < 0 {
      var t := TotalPositive(s.pcs, Holders);
      assert At(s, t, Holding);
    }
    forall t | At(s, t, Holding) ensures s.word < 0 {
      TotalAtLeast(s.pcs, t, Holders);
    }
    TotalZero(s.pcs, Busy);
    TotalBound(s.pcs, Waiters, 1);
  }

  /** A Lock or TryLock takes the lock at once exactly when nobody holds it; otherwise TryLock
      is refused and Lock registers its thread as a waiter. */
  lemma TakenIfFree(s: Lock, t: nat)
    requires Reachable(Init, Next, s) && At(s, t, Idle)
    ensures At(Do(s, Enter(t)), t, Holding) <==> forall u :: 0 <= u < |s.pcs| ==> s.pcs[u] != Holding
    ensures At(Do(s, TryLock(t)), t, Holding) <==> forall u :: 0 <= u < |s.pcs| ==> s.pcs[u] != Holding
    ensures At(Do(s, Enter(t)), t, Holding) || At(Do(s, Enter(t)), t, ToWait)
    ensures At(Do(s, TryLock(t)), t, Holding) || Do(s, TryLock(t)) == s
  {
    WordEncoding(s);
    if s.word < 0 {
      var u: nat :| At(s, u, Holding);
      assert s.pcs[u] == Holding;
    } else {
      forall u | 0 <= u < |s.pcs| ensures s.pcs[u] != Holding {
        assert !At(s, u, Holding);
      }
    }
  }

  /** Unlock frees the lock at once, and goes on to signal exactly when there is a registered
      waiter. */
  lemma UnlockSignals(s: Lock, t: nat)
    requires Reachable(Init, Next, s) && At(s, t, Holding)
    ensures Do(s, Unlock(t)).word > 0
    ensures At(Do(s, Unlock(t)), t, Signaling) <==> exists u :: 0 <= u < |s.pcs| && Waiters(s.pcs[u]) == 1
    ensures At(Do(s, Unlock(t)), t, Signaling) || At(Do(s, Unlock(t)), t, Idle)
  {
    WordEncoding(s);
    assert s.word < 0;
    TotalZero(s.pcs, Waiters);
  }

  /** No lost wakeup: with the lock free and a registered waiter asleep, some unlocker is
      between its store and its signal, or some registered waiter is awake and will retry. */
  lemma NoLostWakeup(s: Lock, sleeper: nat) returns (mover: nat)
    requires Reachable(Init, Next, s)
    requires s.word > 0 && At(s, sleeper, Asleep)
    ensures At(s, mover, Signaling) || At(s, mover, ToWait) || At(s, mover, Awake)
  {
    ReachableInv(s);
    TotalAtLeast(s.pcs, sleeper, Sleepers);
    mover := TotalPositive(s.pcs, Movers);
  }

  // Progress. Once no new caller arrives, only holders, unlockers and registered waiters act.

  predicate Drain(a: Action) {
    !a.Enter? && !a.TryLock?
  }

  /** When no such action is left, every thread has been through the critical section
      and out again: nobody sleeps on a free lock and nobody is stuck. */
  lemma StuckMeansDone(s: Lock)
    requires Inv(s)
    requires forall a :: Drain(a) ==> !Enabled(s, a)
    ensures s.word == 0 || s.word == 1
    ensures forall t :: 0 <= t < |s.pcs| ==> s.pcs[t] == Idle
  {
    forall t | 0 <= t < |s.pcs| ensures s.pcs[t].Idle? || s.pcs[t].Asleep? {
      match s.pcs[t] {
        case Idle =>
        case Asleep =>
        case ToWait => assert Drain(Arbitrate(t)) && Enabled(s, Arbitrate(t));
        case Awake => assert Drain(Retry(t)) && Enabled(s, Retry(t));
        case Holding => assert Drain(Unlock(t)) && Enabled(s, Unlock(t));
        case Signaling =>
          if Total(s.pcs, Sleepers) == 0 {
            assert Drain(WakeNobody(t)) && Enabled(s, WakeNobody(t));
          } else {
            var u := TotalPositive(s.pcs, Sleepers);
            assert Drain(Wake(t, u)) && Enabled(s, Wake(t, u));
          }
      }
    }
    TotalZero(s.pcs, Holders);
    TotalZero(s.pcs, Movers);
    TotalZero(s.pcs, Sleepers);
    TotalZero(s.pcs, Waiters);
    TotalZero(s.pcs, Busy);
  }

  // How far each thread is from sleeping (lock held) or from taking the lock (lock free).
  function HeldWork(pc: Pc): nat {
    match pc case Signaling => 3 case Awake => 2 case ToWait => 1 case _ => 0
  }

  function FreeWork(pc: Pc): nat {
    match pc case Signaling => 3 case ToWait => 2 case Awake => 1 case _ => 0
  }

  ghost function Passages(s: Lock): nat {
    2 * Total(s.pcs, Waiters) + Total(s.pcs, Holders)
  }

  ghost function Work(s: Lock): nat {
    if s.word < 0 then Total(s.pcs, HeldWork) else Total(s.pcs, FreeWork)
  }

  ghost function Measure(s: Lock): nat {
    Passages(s) * (3 * |s.pcs| + 1) + Work(s)
  }

  lemma WorkTotals(pcs: seq<Pc>, t: nat, pc: Pc)
    requires t < |pcs|
    ensures Total(pcs[t := pc], HeldWork) == Total(pcs, HeldWork) - HeldWork(pcs[t]) + HeldWork(pc)
    ensures Total(pcs[t := pc], FreeWork) == Total(pcs, FreeWork) - FreeWork(pcs[t]) + FreeWork(pc)
  {
    TotalUpdate(pcs, t, pc, HeldWork);
    TotalUpdate(pcs, t, pc, FreeWork);
  }

  /** A step either lets a thread further through the lock or does some of the work
      that remains until the next one gets through. */
  lemma StepWork(s: Lock, a: Action)
    requires Inv(s) && Enabled(s, a) && Drain(a)
    ensures Passages(Do(s, a)) == Passages(s) - 1
            || (Passages(Do(s, a)) == Passages(s) && Work(Do(s, a)) < Work(s))
  {
    var s' := Do(s, a);
    MoveTotals(s.pcs, a.t, s'.pcs[a.t]);
    WorkTotals(s.pcs, a.t, s'.pcs[a.t]);
    if a.Wake? {
      MoveTotals(s.pcs[a.t := Idle], a.sleeper, Awake);
      WorkTotals(s.pcs[a.t := Idle], a.sleeper, Awake);
    }
  }

  lemma StepMeasure(s: Lock, a: Action)
    requires Inv(s) && Enabled(s, a) && Drain(a)
    ensures Measure(Do(s, a)) < Measure(s)
  {
    var s' := Do(s, a);
    StepWork(s, a);
    TotalBound(s'.pcs, HeldWork, 3);
    TotalBound(s'.pcs, FreeWork, 3);
    assert |s'.pcs| == |s.pcs|;
    Scaled(Passages(s'), Passages(s), Work(s'), Work(s), 3 * |s.pcs| + 1);
  }

  lemma Scaled(p': nat, p: nat, w': nat, w: nat, k: nat)
    requires (p' + 1 == p && w' < k) || (p' == p && w' < w)
    ensures p' * k + w' < p * k + w
  {
    if p' + 1 == p {
      assert p * k == p' * k + k;
    }
  }

  ghost predicate DrainRun(run: seq<Lock>) {
    && |run| > 0
    && forall i :: 0 <= i < |run| - 1 ==> StepAt(DrainStep, run, i)
  }

  ghost predicate DrainStep(s: Lock, s': Lock) {
    exists a :: Drain(a) && Enabled(s, a) && s' == Do(s, a)
  }

  /** Every run without new callers is bounded in length, whoever is scheduled; so with
      StuckMeansDone every waiter registered in a reachable state gets the lock. */
  lemma {:induction false} DrainBounded(run: seq<Lock>)
    requires DrainRun(run) && Inv(run[0])
    ensures |run| <= Measure(run[0]) + 1
    ensures Inv(run[|run| - 1])
  {
    if |run| > 1 {
      assert StepAt(DrainStep, run, 0);
      var a :| Drain(a) && Enabled(run[0], a) && run[1] == Do(run[0], a);
      StepInv(run[0], a);
      StepMeasure(run[0], a);
      forall i | 0 <= i < |run[1..]| - 1 ensures StepAt(DrainStep, run[1..], i) {
        assert StepAt(DrainStep, run, i + 1);
      }
      DrainBounded(run[1..]);
    }
  }

  predicate Registered(s: Lock, t: nat) {
    t < |s.pcs| && Waiters(s.pcs[t]) == 1
  }

  /** A registered waiter stays one until it holds the lock. */
  lemma {:induction false} RegisteredUntilHolding(run: seq<Lock>, k: nat, t: nat)
    requires DrainRun(run) && k < |run| && Registered(run[0], t)
    requires forall i :: 0 <= i <= k ==> !At(run[i], t, Holding)
    ensures Registered(run[k], t)
  {
    if k > 0 {
      RegisteredUntilHolding(run, k - 1, t);
      assert StepAt(DrainStep, run, k - 1) && !At(run[k], t, Holding);
    }
  }

  /** Starting anywhere reachable, a run of holders, unlockers and registered waiters that
      cannot be extended has let every one of them through: each registered waiter has held
      the lock, and all have left it. */
  lemma EveryWaiterGetsThrough(run: seq<Lock>)
    requires DrainRun(run) && Reachable(Init, Next, run[0])
    ensures |run| <= Measure(run[0]) + 1
    ensures var last := run[|run| - 1];
            (forall a :: Drain(a) ==> !Enabled(last, a)) ==>
              && (forall t :: 0 <= t < |last.pcs| ==> last.pcs[t] == Idle)
              && (forall t :: Registered(run[0], t) ==> exists i :: 0 <= i < |run| && At(run[i], t, Holding))
  {
    ReachableInv(run[0]);
    DrainBounded(run);
    var last := run[|run| - 1];
    if forall a :: Drain(a) ==> !Enabled(last, a) {
      StuckMeansDone(last);
      forall t | Registered(run[0], t)
        ensures exists i :: 0 <= i < |run| && At(run[i], t, Holding)
      {
        if forall i :: 0 <= i < |run| ==> !At(run[i], t, Holding) {
          RegisteredUntilHolding(run, |run| - 1, t);
        }
      }
    }
  }
}
