/** The recursive lock built on the light lock: an unprotected tag naming the owner and an
    unprotected nesting counter. Every read and write of either is its own action, and the
    inner lock takes its own steps, so all interleavings of any number of threads are here. */
module RecursiveLock {
  import opened Counting
  import opened Machines
  import LightLock

  datatype Pc =
    | Out         // between calls
    | Locking     // inside the inner Lock
    | TryLocking  // about to call the inner TryLock
    | SetTag      // owns the inner lock, about to write its tag
    | Increment   // about to increment the counter
    | ClearTag    // decremented the counter to zero, about to clear the tag
    | Release     // about to unlock the inner word
    | Signal      // about to signal the arbiter

  /** depth[t] is the number of Lock calls thread t has completed less its Unlock calls. */
  datatype Recursive = Recursive(inner: LightLock.Lock, tag: nat, counter: nat, depth: seq<nat>, pcs: seq<Pc>)

  datatype Action =
    | CallLock(t: nat)
    | CallTryLock(t: nat)
    | InnerLock(t: nat, step: LightLock.Action)
    | InnerTryLock(t: nat)
    | WriteTag(t: nat)
    | Count(t: nat)
    | CallUnlock(t: nat)
    | EraseTag(t: nat)
    | InnerUnlock(t: nat)
    | InnerSignal(t: nat, step: LightLock.Action)

  const U32 := 0x1_0000_0000

  /** The address of a thread's local storage: nonzero and its own. */
  function TagOf(t: nat): nat {
    t + 1
  }

  predicate At(s: Recursive, t: nat, pc: Pc) {
    t < |s.pcs| && s.pcs[t] == pc
  }

  ghost predicate Init(s: Recursive) {
    && LightLock.Init(s.inner) && s.inner.word == 1
    && s.tag == 0 && s.counter == 0
    && |s.inner.pcs| == |s.depth| == |s.pcs|
    && forall t :: 0 <= t < |s.pcs| ==> s.pcs[t] == Out && s.depth[t] == 0
  }

  ghost predicate Enabled(s: Recursive, a: Action) {
    && |s.inner.pcs| == |s.depth| == |s.pcs|
    && match a
       case CallLock(t) => At(s, t, Out)
       case CallTryLock(t) => At(s, t, Out)
       case InnerLock(t, step) =>
         && At(s, t, Locking) && step.t == t
         && (step.Enter? || step.Arbitrate? || step.Retry?) && LightLock.Enabled(s.inner, step)
       case InnerTryLock(t) => At(s, t, TryLocking) && LightLock.Enabled(s.inner, LightLock.TryLock(t))
       case WriteTag(t) => At(s, t, SetTag)
       // The caller nests fewer than 2^32 times.
       case Count(t) => At(s, t, Increment) && s.depth[t] + 1 < U32
       // The caller unlocks only what it has locked.
       case CallUnlock(t) => At(s, t, Out) && s.depth[t] > 0
       case EraseTag(t) => At(s, t, ClearTag)
       case InnerUnlock(t) => At(s, t, Release) && LightLock.Enabled(s.inner, LightLock.Unlock(t))
       case InnerSignal(t, step) =>
         && At(s, t, Signal) && step.t == t
         && (step.Wake? || step.WakeNobody?) && LightLock.Enabled(s.inner, step)
  }

  function Goto(s: Recursive, t: nat, pc: Pc): Recursive
    requires t < |s.pcs|
  {
    s.(pcs := s.pcs[t := pc])
  }

  ghost function Do(s: Recursive, a: Action): Recursive
    requires Enabled(s, a)
  {
    match a
    case CallLock(t) => Goto(s, t, if s.tag == TagOf(t) then Increment else Locking)
    case CallTryLock(t) => Goto(s, t, if s.tag == TagOf(t) then Increment else TryLocking)
    case InnerLock(t, step) =>
      var inner := LightLock.Do(s.inner, step);
      Goto(s.(inner := inner), t, if inner.pcs[t].Holding? then SetTag else Locking)
    case InnerTryLock(t) =>
      var inner := LightLock.Do(s.inner, LightLock.TryLock(t));
      Goto(s.(inner := inner), t, if inner.pcs[t].Holding? then SetTag else Out)
    case WriteTag(t) => Goto(s.(tag := TagOf(t)), t, Increment)
    case Count(t) =>
      Goto(s.(counter := (s.counter + 1) % U32, depth := s.depth[t := s.depth[t] + 1]), t, Out)
    case CallUnlock(t) =>
      var counter := (s.counter + U32 - 1) % U32;
      Goto(s.(counter := counter, depth := s.depth[t := s.depth[t] - 1]), t, if counter == 0 then ClearTag else Out)
    case EraseTag(t) => Goto(s.(tag := 0), t, Release)
    case InnerUnlock(t) =>
      var inner := LightLock.Do(s.inner, LightLock.Unlock(t));
      Goto(s.(inner := inner), t, if inner.pcs[t].Signaling? then Signal else Out)
    case InnerSignal(t, step) => Goto(s.(inner := LightLock.Do(s.inner, step)), t, Out)
  }

  ghost predicate Next(s: Recursive, s': Recursive) {
    exists a :: Enabled(s, a) && s' == Do(s, a)
  }

  /** What one thread's position says about the inner lock, the tag and the counter. */
  predicate ThreadInv(s: Recursive, t: nat)
    requires t < |s.pcs| == |s.depth| == |s.inner.pcs|
  {
    var inner := s.inner.pcs[t];
    match s.pcs[t]
    case Out => if s.depth[t] == 0 then inner.Idle? else inner.Holding? && s.tag == TagOf(t) && s.counter == s.depth[t]
    case Locking => s.depth[t] == 0 && (inner.Idle? || inner.ToWait? || inner.Asleep? || inner.Awake?)
    case TryLocking => s.depth[t] == 0 && inner.Idle?
    case SetTag => inner.Holding? && s.depth[t] == 0 && s.tag == 0 && s.counter == 0
    case Increment => inner.Holding? && s.tag == TagOf(t) && s.counter == s.depth[t]
    case ClearTag => inner.Holding? && s.depth[t] == 0 && s.tag == TagOf(t) && s.counter == 0
    case Release => inner.Holding? && s.depth[t] == 0 && s.tag == 0 && s.counter == 0
    case Signal => inner.Signaling? && s.depth[t] == 0
  }

  ghost predicate Inv(s: Recursive) {
    && LightLock.Inv(s.inner)
    && |s.inner.pcs| == |s.depth| == |s.pcs|
    && (forall t :: 0 <= t < |s.pcs| ==> ThreadInv(s, t) && s.depth[t] < U32)
    && (s.tag != 0 ==> s.tag - 1 < |s.pcs| && s.inner.pcs[s.tag - 1].Holding?)
    && (s.inner.word >= 0 ==> s.tag == 0 && s.counter == 0)
  }

  lemma HolderIsUnique(s: LightLock.Lock, t: nat, u: nat)
    requires LightLock.Inv(s) && LightLock.At(s, t, LightLock.Holding)
    ensures s.word < 0
    ensures u < |s.pcs| && u != t ==> !s.pcs[u].Holding?
  {
    TotalAtLeast(s.pcs, t, LightLock.Holders);
    if u < |s.pcs| && u != t {
      TotalAtLeastTwo(s.pcs, t, u, LightLock.Holders);
    }
  }

  lemma InitInv(s: Recursive)
    requires Init(s)
    ensures Inv(s)
  {
    LightLock.InitInv(s.inner);
  }

  ghost predicate InnerStep(s: LightLock.Lock, s': LightLock.Lock) {
    s' == s || LightLock.Next(s, s')
  }

  /** Every action leaves the inner lock alone or is one of its own steps. */
  lemma InnerRefines(s: Recursive, a: Action)
    requires Inv(s) && Enabled(s, a)
    ensures InnerStep(s.inner, Do(s, a).inner) && LightLock.Inv(Do(s, a).inner)
  {
    match a {
      case InnerLock(t, step) => LightLock.StepInv(s.inner, step);
      case InnerTryLock(t) => LightLock.StepInv(s.inner, LightLock.TryLock(t));
      case InnerUnlock(t) => LightLock.StepInv(s.inner, LightLock.Unlock(t));
      case InnerSignal(t, step) => LightLock.StepInv(s.inner, step);
      case _ =>
    }
  }

  lemma StepSelf(s: Recursive, a: Action)
    requires Inv(s) && Enabled(s, a)
    ensures ThreadInv(Do(s, a), a.t) && Do(s, a).depth[a.t] < U32
  {
    assert ThreadInv(s, a.t);
    if a.InnerLock? && Do(s, a).inner.pcs[a.t].Holding? {
      assert s.inner.word >= 0;
    }
    if a.InnerTryLock? && Do(s, a).inner.pcs[a.t].Holding? {
      assert s.inner.word >= 0;
    }
  }

  lemma StepOther(s: Recursive, a: Action, u: nat)
    requires Inv(s) && Enabled(s, a)
    requires u < |s.pcs| && u != a.t
    ensures ThreadInv(Do(s, a), u) && Do(s, a).depth[u] < U32
  {
    assert ThreadInv(s, a.t) && ThreadInv(s, u);
    if s.inner.pcs[a.t].Holding? {
      HolderIsUnique(s.inner, a.t, u);
    }
  }

  lemma StepShared(s: Recursive, a: Action)
    requires Inv(s) && Enabled(s, a)
    ensures var s' := Do(s, a);
            && |s'.inner.pcs| == |s'.depth| == |s'.pcs|
            && (s'.tag != 0 ==> s'.tag - 1 < |s'.pcs| && s'.inner.pcs[s'.tag - 1].Holding?)
            && (s'.inner.word >= 0 ==> s'.tag == 0 && s'.counter == 0)
  {
    assert ThreadInv(s, a.t);
    if s.inner.pcs[a.t].Holding? {
      HolderIsUnique(s.inner, a.t, a.t);
    }
    if s.tag != 0 {
      HolderIsUnique(s.inner, s.tag - 1, a.t);
    }
  }

  lemma StepInv(s: Recursive, a: Action)
    requires Inv(s) && Enabled(s, a)
    ensures Inv(Do(s, a))
  {
    InnerRefines(s, a);
    StepShared(s, a);
    forall u | 0 <= u < |s.pcs| ensures ThreadInv(Do(s, a), u) && Do(s, a).depth[u] < U32 {
      if u == a.t { StepSelf(s, a); } else { StepOther(s, a, u); }
    }
  }

  lemma ReachableInv(s: Recursive)
    requires Reachable(Init, Next, s)
    ensures Inv(s)
  {
    forall s | Init(s) ensures Inv(s) { InitInv(s); }
    forall s, s' | Inv(s) && Next(s, s') ensures Inv(s') {
      var a :| Enabled(s, a) && s' == Do(s, a);
      StepInv(s, a);
    }
    Invariance(Init, Next, Inv, s);
  }

  /** A thread that reads its own tag, without holding any lock to do so, is the holder. */
  lemma OwnTagMeansHolder(s: Recursive, t: nat)
    requires Reachable(Init, Next, s)
    requires s.tag == TagOf(t)
    ensures LightLock.At(s.inner, t, LightLock.Holding)
  {
    ReachableInv(s);
  }

  /** Between calls, a thread holds the inner lock exactly while its nesting depth is
      nonzero, and the shared counter is then that depth. */
  lemma HeldWhileNested(s: Recursive, t: nat)
    requires Reachable(Init, Next, s) && At(s, t, Out)
    ensures |s.pcs| == |s.depth|
    ensures s.depth[t] > 0 <==> LightLock.At(s.inner, t, LightLock.Holding)
    ensures s.depth[t] > 0 ==> s.counter == s.depth[t] && s.tag == TagOf(t)
  {
    ReachableInv(s);
    assert ThreadInv(s, t);
  }

  /** At most one thread is nested at all. */
  lemma OneOwner(s: Recursive, t: nat, u: nat)
    requires Reachable(Init, Next, s)
    requires t < |s.depth| && u < |s.depth| && s.depth[t] > 0 && s.depth[u] > 0
    ensures t == u
  {
    ReachableInv(s);
    assert ThreadInv(s, t) && ThreadInv(s, u);
    HolderIsUnique(s.inner, t, u);
  }

  /** Unlock starts to give the inner lock back exactly when the depth returns to zero, and
      a step that ends a thread's hold is that thread's own, taken at depth zero. */
  lemma ReleasedAtDepthZero(s: Recursive, a: Action, t: nat)
    requires Reachable(Init, Next, s) && Enabled(s, a) && t < |s.pcs|
    ensures a == CallUnlock(t) ==> (Do(s, a).pcs[t] == ClearTag <==> s.depth[t] == 1)
    ensures s.inner.pcs[t].Holding? && !Do(s, a).inner.pcs[t].Holding? ==>
              a == InnerUnlock(t) && s.depth[t] == 0 && s.tag == 0
  {
    ReachableInv(s);
    assert ThreadInv(s, t) && ThreadInv(s, a.t);
  }

  // What a call comes to, over a run: from the step that makes it to the thread's return.

  ghost predicate Takes(trace: seq<Recursive>, i: nat, a: Action)
    requires i < |trace| - 1
  {
    Enabled(trace[i], a) && trace[i + 1] == Do(trace[i], a)
  }

  /** The thread makes a call at i and returns from it at j, not before. */
  ghost predicate CallReturns(trace: seq<Recursive>, i: nat, j: nat, call: Action) {
    && IsTrace(Init, Next, trace) && i < j < |trace| && Takes(trace, i, call)
    && At(trace[j], call.t, Out) && forall k :: i < k < j ==> !At(trace[k], call.t, Out)
  }

  /** Inside a Lock or TryLock called at depth d. */
  predicate Acquiring(s: Recursive, t: nat, d: nat) {
    && |s.inner.pcs| == |s.depth| == |s.pcs| && t < |s.pcs| && s.depth[t] == d
    && s.pcs[t] in {Locking, TryLocking, SetTag, Increment}
  }

  /** Inside an Unlock that has brought the depth to 0. */
  predicate Releasing(s: Recursive, t: nat) {
    && |s.inner.pcs| == |s.depth| == |s.pcs| && t < |s.pcs| && s.depth[t] == 0
    && s.pcs[t] in {ClearTag, Release, Signal}
  }

  /** Back from it. */
  predicate Released(s: Recursive, t: nat) {
    |s.depth| == |s.pcs| && At(s, t, Out) && s.depth[t] == 0
  }

  predicate Counted(s: Recursive, t: nat, d: nat) {
    && |s.inner.pcs| == |s.depth| == |s.pcs|
    && At(s, t, Out) && s.depth[t] == d + 1 && LightLock.At(s.inner, t, LightLock.Holding)
  }

  /** A TryLock that has found the inner lock held. */
  predicate Refused(s: Recursive, s': Recursive, t: nat, d: nat) {
    && |s'.depth| == |s'.pcs| && At(s', t, Out) && d == 0 && s'.depth[t] == 0
    && At(s, t, TryLocking) && s.inner.word < 0
  }

  lemma AcquiringStep(s: Recursive, a: Action, t: nat, d: nat)
    requires Inv(s) && Enabled(s, a) && Acquiring(s, t, d)
    ensures Acquiring(Do(s, a), t, d) || Counted(Do(s, a), t, d) || Refused(s, Do(s, a), t, d)
    ensures s.pcs[t] != TryLocking ==> Do(s, a).pcs[t] != TryLocking
  {
    assert ThreadInv(s, t);
    StepInv(s, a);
    assert ThreadInv(Do(s, a), t);
  }

  lemma ReleasingStep(s: Recursive, a: Action, t: nat)
    requires Inv(s) && Enabled(s, a) && Releasing(s, t)
    ensures Releasing(Do(s, a), t) || Released(Do(s, a), t)
  {
    assert ThreadInv(s, t);
  }

  lemma {:induction false} SizesFixed(trace: seq<Recursive>, i: nat, j: nat)
    requires IsTrace(Init, Next, trace) && i <= j < |trace|
    ensures |trace[j].depth| == |trace[i].depth| && |trace[j].pcs| == |trace[i].pcs|
  {
    if i < j {
      SizesFixed(trace, i, j - 1);
      assert StepAt(Next, trace, j - 1);
    }
  }

  lemma {:induction false} AcquiringUntil(trace: seq<Recursive>, i: nat, k: nat, t: nat, d: nat)
    requires IsTrace(Init, Next, trace) && i <= k < |trace| && Acquiring(trace[i], t, d)
    requires forall m :: i < m <= k ==> !At(trace[m], t, Out)
    ensures Acquiring(trace[k], t, d)
    ensures trace[i].pcs[t] != TryLocking ==> trace[k].pcs[t] != TryLocking
  {
    if i < k {
      AcquiringUntil(trace, i, k - 1, t, d);
      PrefixReachable(Init, Next, trace, k - 1);
      ReachableInv(trace[k - 1]);
      assert StepAt(Next, trace, k - 1);
      var a :| Enabled(trace[k - 1], a) && trace[k] == Do(trace[k - 1], a);
      AcquiringStep(trace[k - 1], a, t, d);
      assert !At(trace[k], t, Out);
    }
  }

  /** From inside the call to its return. */
  lemma AcquiringReturns(trace: seq<Recursive>, i: nat, j: nat, t: nat, d: nat)
    requires IsTrace(Init, Next, trace) && i < j < |trace| && Acquiring(trace[i], t, d)
    requires At(trace[j], t, Out) && forall m :: i < m < j ==> !At(trace[m], t, Out)
    ensures Counted(trace[j], t, d) || (trace[i].pcs[t] == TryLocking && Refused(trace[j - 1], trace[j], t, d))
  {
    AcquiringUntil(trace, i, j - 1, t, d);
    PrefixReachable(Init, Next, trace, j - 1);
    ReachableInv(trace[j - 1]);
    assert StepAt(Next, trace, j - 1);
    var a :| Enabled(trace[j - 1], a) && trace[j] == Do(trace[j - 1], a);
    AcquiringStep(trace[j - 1], a, t, d);
  }

  /** Every Lock counts: at its return the caller is nested one deeper and holds the inner
      lock. */
  lemma LockCounts(trace: seq<Recursive>, i: nat, j: nat, t: nat)
    requires CallReturns(trace, i, j, CallLock(t))
    ensures |trace[j].depth| == |trace[i].depth| > t
    ensures trace[j].depth[t] == trace[i].depth[t] + 1
    ensures LightLock.At(trace[j].inner, t, LightLock.Holding)
  {
    var d := trace[i].depth[t];
    assert Acquiring(trace[i + 1], t, d) && trace[i + 1].pcs[t] != TryLocking;
    SizesFixed(trace, i, j);
    AcquiringReturns(trace, i + 1, j, t, d);
  }

  /** Every TryLock counts likewise, or it finds the inner lock held at its try and changes
      nothing; the owner's never fails. */
  lemma TryLockCounts(trace: seq<Recursive>, i: nat, j: nat, t: nat)
    requires CallReturns(trace, i, j, CallTryLock(t))
    ensures |trace[j].depth| == |trace[i].depth| > t
    ensures || (trace[j].depth[t] == trace[i].depth[t] + 1 && LightLock.At(trace[j].inner, t, LightLock.Holding))
            || (trace[j].depth[t] == trace[i].depth[t] == 0 && trace[j - 1].inner.word < 0)
  {
    var d := trace[i].depth[t];
    assert Acquiring(trace[i + 1], t, d);
    SizesFixed(trace, i, j);
    AcquiringReturns(trace, i + 1, j, t, d);
  }

  lemma ReleasingNext(trace: seq<Recursive>, k: nat, t: nat)
    requires IsTrace(Init, Next, trace) && k + 1 < |trace| && Releasing(trace[k], t)
    ensures Releasing(trace[k + 1], t) || Released(trace[k + 1], t)
  {
    PrefixReachable(Init, Next, trace, k);
    ReachableInv(trace[k]);
    assert StepAt(Next, trace, k);
    var s, s' := trace[k], trace[k + 1];
    var a :| Enabled(s, a) && s' == Do(s, a);
    ReleasingStep(s, a, t);
  }

  lemma {:induction false} ReleasingReturns(trace: seq<Recursive>, i: nat, j: nat, t: nat)
    requires IsTrace(Init, Next, trace) && i < j < |trace| && Releasing(trace[i], t)
    requires At(trace[j], t, Out) && forall m :: i < m < j ==> !At(trace[m], t, Out)
    ensures Released(trace[j], t)
    decreases j - i
  {
    ReleasingNext(trace, i, t);
    if i + 1 < j {
      assert !At(trace[i + 1], t, Out);
      ReleasingReturns(trace, i + 1, j, t);
    }
  }

  /** Every Unlock takes one level off, and the last one gives up the inner lock. */
  lemma UnlockCounts(trace: seq<Recursive>, i: nat, j: nat, t: nat)
    requires CallReturns(trace, i, j, CallUnlock(t))
    ensures |trace[j].depth| == |trace[i].depth| > t
    ensures trace[j].depth[t] == trace[i].depth[t] - 1
    ensures LightLock.At(trace[j].inner, t, LightLock.Holding) <==> trace[i].depth[t] > 1
  {
    PrefixReachable(Init, Next, trace, i);
    ReachableInv(trace[i]);
    SizesFixed(trace, i, j);
    assert ThreadInv(trace[i], t);
    if j > i + 1 {
      assert !At(trace[i + 1], t, Out);
      assert Releasing(trace[i + 1], t);
      ReleasingReturns(trace, i + 1, j, t);
    }
    PrefixReachable(Init, Next, trace, j);
    HeldWhileNested(trace[j], t);
  }

  /** Nobody else's steps change a thread's depth. */
  lemma DepthIsOwn(s: Recursive, a: Action, t: nat)
    requires Inv(s) && Enabled(s, a) && t < |s.depth| && a.t != t
    ensures t < |Do(s, a).depth| && Do(s, a).depth[t] == s.depth[t] && Do(s, a).pcs[t] == s.pcs[t]
  {
  }
}
