/** What each call on a light event achieves, over runs: from the step that makes the call to
    the thread's return, with other threads stepping in between unless it says otherwise. */
module LightEventCalls {
  import opened Machines
  import opened LightEvent

  predicate Signaled(s: Event) {
    s.state >= 0
  }

  ghost predicate Called(trace: seq<Event>, i: nat, t: nat, entry: Pc) {
    i + 1 < |trace| && Enabled(trace[i], Call(t, entry)) && trace[i + 1] == Do(trace[i], Call(t, entry))
  }

  /** The thread makes a call at i and is still in it before j. */
  ghost predicate Inside(trace: seq<Event>, i: nat, j: nat, t: nat, entry: Pc) {
    && IsTrace(Init, Next, trace) && i < j < |trace| && Called(trace, i, t, entry)
    && forall m :: i < m < j ==> !At(trace[m], t, Idle)
  }

  ghost predicate Returns(trace: seq<Event>, i: nat, j: nat, t: nat, entry: Pc) {
    Inside(trace, i, j, t, entry) && At(trace[j], t, Idle)
  }

  ghost predicate Own(s: Event, s': Event, t: nat) {
    exists a: Action :: a.t == t && Enabled(s, a) && s' == Do(s, a)
  }

  ghost predicate OwnAt(trace: seq<Event>, k: nat, t: nat)
    requires k + 1 < |trace|
  {
    Own(trace[k], trace[k + 1], t)
  }

  /** No other thread steps from i to j. */
  ghost predicate Alone(trace: seq<Event>, i: nat, j: nat, t: nat) {
    j < |trace| && forall k :: i <= k < j ==> OwnAt(trace, k, t)
  }

  /** The states an event of either kind can be in. */
  predicate Proper(s: Event) {
    s.state in if s.sticky then {-2, 1} else {-1, 0}
  }

  lemma StatesProper(trace: seq<Event>, k: nat)
    requires IsTrace(Init, Next, trace) && k < |trace|
    ensures Proper(trace[k])
  {
    PrefixReachable(Init, Next, trace, k);
    ReachableInv(trace[k]);
  }

  lemma AtEntry(trace: seq<Event>, i: nat, j: nat, t: nat, entry: Pc)
    requires Inside(trace, i, j, t, entry)
    ensures At(trace[i + 1], t, entry) && Proper(trace[i])
    ensures trace[i + 1].state == trace[i].state && trace[i + 1].sticky == trace[i].sticky
  {
    StatesProper(trace, i);
  }

  lemma StepIsNext(trace: seq<Event>, k: nat)
    requires IsTrace(Init, Next, trace) && k + 1 < |trace|
    ensures Next(trace[k], trace[k + 1]) && Proper(trace[k])
  {
    StatesProper(trace, k);
    assert StepAt(Next, trace, k);
  }

  // Signal and Clear.

  /** On the way to a store of a signaled (or cleared) state, when the event is in the other. */
  predicate Pending(s: Event, t: nat, signal: bool) {
    && t < |s.pcs|
    && if signal then
         if s.sticky then s.pcs[t] in {SignalIsOneshot, SignalIsSticky, SignalLocking, SignalStoreSticky}
         else s.pcs[t] in {SignalIsOneshot, SignalStore}
       else
         if s.sticky then s.pcs[t] in {PulseIsSticky, PulseIsOneshot, ClearIsSticky, ClearLocking, ClearStoreSticky}
         else s.pcs[t] in {PulseIsSticky, PulseIsOneshot, ClearIsSticky, ClearIsOneshot, ClearStore}
  }

  lemma PendingOwn(s: Event, a: Action, signal: bool)
    requires Proper(s) && Enabled(s, a) && Pending(s, a.t, signal) && Signaled(s) != signal
    ensures Signaled(Do(s, a)) == signal || Pending(Do(s, a), a.t, signal)
  {
  }

  lemma KindFixed(s: Event, a: Action)
    requires Enabled(s, a)
    ensures Do(s, a).sticky == s.sticky
  {
  }

  lemma PendingStep(s: Event, s': Event, t: nat, signal: bool)
    requires Proper(s) && Next(s, s') && Pending(s, t, signal) && Signaled(s) != signal
    ensures Signaled(s') == signal || Pending(s', t, signal)
  {
    var a :| Enabled(s, a) && s' == Do(s, a);
    if a.t != t {
      Bystander(s, a, t);
      KindFixed(s, a);
    } else {
      PendingOwn(s, a, signal);
    }
  }

  lemma {:induction false} PendingUntil(trace: seq<Event>, i: nat, k: nat, t: nat, signal: bool)
    requires IsTrace(Init, Next, trace) && i <= k < |trace| && Pending(trace[i], t, signal)
    requires forall m :: i <= m <= k ==> Signaled(trace[m]) != signal
    ensures Pending(trace[k], t, signal)
  {
    if i < k {
      PendingUntil(trace, i, k - 1, t, signal);
      StepIsNext(trace, k - 1);
      PendingStep(trace[k - 1], trace[k], t, signal);
    }
  }

  /** A Clear passes through a cleared state before it returns, and so does a Pulse. */
  lemma ClearClears(trace: seq<Event>, i: nat, j: nat, t: nat, entry: Pc)
    requires entry == ClearIsSticky || entry == PulseIsSticky
    requires Returns(trace, i, j, t, entry)
    ensures exists m :: i < m <= j && trace[m].state < 0
  {
    AtEntry(trace, i, j, t, entry);
    if forall m :: i < m <= j ==> Signaled(trace[m]) {
      PendingUntil(trace, i + 1, j, t, false);
    }
  }

  /** A Signal passes through a signaled state before it returns. */
  lemma SignalSignals(trace: seq<Event>, i: nat, j: nat, t: nat)
    requires Returns(trace, i, j, t, SignalIsOneshot)
    ensures exists m :: i < m <= j && trace[m].state >= 0
  {
    AtEntry(trace, i, j, t, SignalIsOneshot);
    if forall m :: i < m <= j ==> !Signaled(trace[m]) {
      PendingUntil(trace, i + 1, j, t, true);
    }
  }

  ghost predicate StickyStoreAt(trace: seq<Event>, k: nat)
    requires k + 1 < |trace|
  {
    StickySignalStores(trace[k], trace[k + 1])
  }

  lemma StickyStaysCleared(s: Event, a: Action)
    requires s.sticky && StickyInv(s) && Enabled(s, a) && s.state < 0 && !At(s, a.t, SignalStoreSticky)
    ensures Do(s, a).state < 0
  {
    assert StickyThread(s, a.t);
  }

  lemma StickyNext(trace: seq<Event>, k: nat)
    requires IsTrace(Init, Next, trace) && k + 1 < |trace| && trace[k].sticky
    ensures trace[k + 1].sticky
    ensures trace[k].state < 0 && !StickyStoreAt(trace, k) ==> trace[k + 1].state < 0
  {
    PrefixReachable(Init, Next, trace, k);
    ReachableInv(trace[k]);
    assert StepAt(Next, trace, k);
    var s, s' := trace[k], trace[k + 1];
    var a :| Enabled(s, a) && s' == Do(s, a);
    KindFixed(s, a);
    if s.state < 0 && !At(s, a.t, SignalStoreSticky) {
      StickyStaysCleared(s, a);
    }
  }

  /** A sticky event is signaled only once some Signal has stored. */
  lemma {:induction false} SignaledByStore(trace: seq<Event>, k: nat)
    requires IsTrace(Init, Next, trace) && k < |trace| && trace[0].sticky
    ensures trace[k].sticky
    ensures trace[k].state >= 0 ==> exists m: nat :: m < k && StickyStoreAt(trace, m)
  {
    if k > 0 {
      SignaledByStore(trace, k - 1);
      StickyNext(trace, k - 1);
    }
  }

  predicate InCall(pc: Pc, signal: bool) {
    if signal then
      pc in {SignalIsOneshot, SignalStore, SignalOne, SignalIsSticky, SignalLocking, SignalStoreSticky,
             SignalAll, SignalUnlocking, SignalUnlocked}
    else
      pc in {ClearIsSticky, ClearLocking, ClearStoreSticky, ClearUnlocking, ClearUnlocked, ClearIsOneshot,
             ClearStore, PulseIsSticky, PulseAll, PulseIsOneshot, PulseOne}
  }

  predicate Settling(s: Event, t: nat, signal: bool) {
    t < |s.pcs| && (InCall(s.pcs[t], signal) || s.pcs[t].Idle?) && (Signaled(s) == signal || Pending(s, t, signal))
  }

  lemma SettlingOwn(s: Event, a: Action, signal: bool)
    requires Proper(s) && Enabled(s, a) && Settling(s, a.t, signal) && InCall(s.pcs[a.t], signal)
    ensures Settling(Do(s, a), a.t, signal)
  {
    if Signaled(s) != signal {
      PendingOwn(s, a, signal);
    }
  }

  lemma SettlingStep(s: Event, s': Event, t: nat, signal: bool)
    requires Proper(s) && Own(s, s', t) && Settling(s, t, signal) && InCall(s.pcs[t], signal)
    ensures Settling(s', t, signal)
  {
    var a: Action :| a.t == t && Enabled(s, a) && s' == Do(s, a);
    SettlingOwn(s, a, signal);
  }

  lemma {:induction false} SettlesAlone(trace: seq<Event>, i: nat, k: nat, t: nat, signal: bool)
    requires IsTrace(Init, Next, trace) && i <= k < |trace| && Alone(trace, i, k, t)
    requires forall m :: i <= m < k ==> !At(trace[m], t, Idle)
    requires Settling(trace[i], t, signal)
    ensures Settling(trace[k], t, signal)
  {
    if i < k {
      SettlesAlone(trace, i, k - 1, t, signal);
      StatesProper(trace, k - 1);
      assert OwnAt(trace, k - 1, t) && !At(trace[k - 1], t, Idle);
      SettlingStep(trace[k - 1], trace[k], t, signal);
    }
  }

  // TryWait.

  /** Whether a TryWait at this position is about to return. */
  predicate TryEnds(s: Event, t: nat) {
    (At(s, t, TryIsSticky) && s.state == 1) || At(s, t, TryReset)
  }

  lemma TryLooks(s: Event, s': Event, t: nat)
    requires At(s, t, TryIsSticky) && Own(s, s', t)
    ensures s.state == 1 ==> At(s', t, Idle)
    ensures s.state != 1 ==> At(s', t, TryReset) && s'.state == s.state
  {
    var a: Action :| a.t == t && Enabled(s, a) && s' == Do(s, a);
    assert a == Step(t);
  }

  lemma TryReturns(s: Event, s': Event, t: nat)
    requires TryEnds(s, t) && Own(s, s', t)
    ensures At(s', t, Idle)
    ensures Succeeds(s, s') <==> s.state == 0 || At(s, t, TryIsSticky)
  {
    var a: Action :| a.t == t && Enabled(s, a) && s' == Do(s, a);
    assert a == Step(t);
    if Succeeds(s, s') {
      var b :| Enabled(s, b) && s' == Do(s, b) && LetsThrough(s, b);
      if b.t != t { Bystander(s, b, t); }
    }
  }

  lemma TryToLastStep(trace: seq<Event>, i: nat, j: nat, t: nat)
    requires i < j < |trace| && At(trace[i], t, TryIsSticky) && At(trace[j], t, Idle) && Alone(trace, i, j, t)
    requires forall m :: i < m < j ==> !At(trace[m], t, Idle)
    ensures trace[j - 1].state == trace[i].state && TryEnds(trace[j - 1], t)
    ensures At(trace[j - 1], t, TryIsSticky) <==> trace[i].state == 1
  {
    assert OwnAt(trace, i, t);
    TryLooks(trace[i], trace[i + 1], t);
    if trace[i].state == 1 {
      assert At(trace[i + 1], t, Idle);
    } else {
      assert OwnAt(trace, i + 1, t);
      TryReturns(trace[i + 1], trace[i + 2], t);
      assert At(trace[i + 2], t, Idle);
    }
  }

  /** A TryWait with nobody else stepping is let through exactly when it is called on a
      signaled event. */
  lemma TryWaitAlone(trace: seq<Event>, i: nat, j: nat, t: nat)
    requires Returns(trace, i, j, t, TryIsSticky) && Alone(trace, i + 1, j, t)
    ensures j > 0 && (Succeeds(trace[j - 1], trace[j]) <==> trace[i].state >= 0)
  {
    AtEntry(trace, i, j, t, TryIsSticky);
    TryToLastStep(trace, i + 1, j, t);
    assert OwnAt(trace, j - 1, t);
    TryReturns(trace[j - 1], trace[j], t);
  }

  /** A TryWait right after a Clear is not let through, whatever the state before. */
  lemma ClearThenTryWait(trace: seq<Event>, i: nat, j: nat, k: nat, t: nat, u: nat)
    requires Returns(trace, i, j, t, ClearIsSticky) && Alone(trace, i + 1, j, t)
    requires Returns(trace, j, k, u, TryIsSticky) && Alone(trace, j + 1, k, u)
    ensures trace[j].state < 0 && !Succeeds(trace[k - 1], trace[k])
  {
    AtEntry(trace, i, j, t, ClearIsSticky);
    SettlesAlone(trace, i + 1, j, t, false);
    TryWaitAlone(trace, j, k, u);
  }

  /** A TryWait right after a Signal is let through. */
  lemma SignalThenTryWait(trace: seq<Event>, i: nat, j: nat, k: nat, t: nat, u: nat)
    requires Returns(trace, i, j, t, SignalIsOneshot) && Alone(trace, i + 1, j, t)
    requires Returns(trace, j, k, u, TryIsSticky) && Alone(trace, j + 1, k, u)
    ensures trace[j].state >= 0 && Succeeds(trace[k - 1], trace[k])
  {
    AtEntry(trace, i, j, t, SignalIsOneshot);
    SettlesAlone(trace, i + 1, j, t, true);
    TryWaitAlone(trace, j, k, u);
  }

  // Pulse.

  ghost predicate WakesOne(s: Event, s': Event) {
    if Asleep(s) == {} then Asleep(s') == {}
    else exists u :: u in Asleep(s) && Asleep(s') == Asleep(s) - {u}
  }

  predicate Pulsing(s: Event, t: nat) {
    t < |s.pcs| && if s.sticky then s.pcs[t] in {PulseIsSticky, PulseAll}
                   else s.pcs[t] in {PulseIsSticky, PulseIsOneshot, PulseOne}
  }

  ghost predicate Pulsed(s: Event, s': Event, t: nat) {
    At(s', t, Idle) && if s.sticky then Asleep(s') == {} else WakesOne(s, s')
  }

  lemma PulseAllStep(s: Event, t: nat)
    requires At(s, t, PulseAll) && |s.inner.pcs| == |s.pcs|
    ensures Asleep(Do(s, Step(t))) == {}
  {
  }

  lemma PulseOneStep(s: Event, a: Action)
    requires Enabled(s, a) && At(s, a.t, PulseOne)
    ensures WakesOne(s, Do(s, a))
  {
    match a {
      case Wake(t, u) =>
        assert u in Asleep(s);
        assert Asleep(Do(s, a)) == Asleep(s) - {u};
      case WakeNobody(t) =>
        Counting.TotalZero(s.pcs, Sleepers);
        assert Asleep(s) == {} && Asleep(Do(s, a)) == {};
    }
  }

  lemma PulseStep(s: Event, s': Event, t: nat)
    requires Proper(s) && Next(s, s') && !Signaled(s) && Pulsing(s, t)
    ensures s'.sticky == s.sticky
    ensures Pulsing(s', t) || Pulsed(s, s', t)
  {
    var a :| Enabled(s, a) && s' == Do(s, a);
    KindFixed(s, a);
    if a.t != t {
      Bystander(s, a, t);
    } else if s.pcs[t].PulseAll? {
      PulseAllStep(s, t);
    } else if s.pcs[t].PulseOne? {
      PulseOneStep(s, a);
    }
  }

  lemma PulseNext(trace: seq<Event>, k: nat, t: nat)
    requires IsTrace(Init, Next, trace) && k + 1 < |trace| && !Signaled(trace[k]) && Pulsing(trace[k], t)
    ensures trace[k + 1].sticky == trace[k].sticky
    ensures Pulsing(trace[k + 1], t) || Pulsed(trace[k], trace[k + 1], t)
  {
    StepIsNext(trace, k);
    PulseStep(trace[k], trace[k + 1], t);
  }

  lemma {:induction false} PulsingUntil(trace: seq<Event>, i: nat, k: nat, t: nat)
    requires IsTrace(Init, Next, trace) && i <= k < |trace| && At(trace[i], t, PulseIsSticky)
    requires forall m :: i <= m <= k ==> !Signaled(trace[m]) && !At(trace[m], t, Idle)
    ensures Pulsing(trace[k], t) && trace[k].sticky == trace[i].sticky
  {
    if i < k {
      PulsingUntil(trace, i, k - 1, t);
      assert !At(trace[k], t, Idle);
      PulseNext(trace, k - 1, t);
    }
  }

  /** A Pulse on an event that stays cleared: on a sticky one nobody is asleep when it returns,
      on a one-shot one its last step wakes one sleeper if there is any. */
  lemma PulseWakes(trace: seq<Event>, i: nat, j: nat, t: nat)
    requires Returns(trace, i, j, t, PulseIsSticky)
    requires forall m :: i <= m <= j ==> trace[m].state < 0
    ensures trace[i].sticky ==> forall u :: 0 <= u < |trace[j].pcs| ==> !IsAsleep(trace[j].pcs[u])
    ensures !trace[i].sticky ==> WakesOne(trace[j - 1], trace[j])
  {
    AtEntry(trace, i, j, t, PulseIsSticky);
    assert i + 1 < j;
    PulsingUntil(trace, i + 1, j - 1, t);
    PulseNext(trace, j - 1, t);
    if trace[i].sticky {
      forall u | 0 <= u < |trace[j].pcs| ensures !IsAsleep(trace[j].pcs[u]) {
        assert u !in Asleep(trace[j]);
      }
    }
  }

  // Wait.

  lemma StickyWaitOwn(s: Event, a: Action)
    requires Proper(s) && s.sticky && Enabled(s, a)
    requires InWait(s.pcs[a.t]) && At(Do(s, a), a.t, Idle)
    ensures s.state == 1
  {
    assert a == Step(a.t);
  }

  lemma StickyWaitOther(s: Event, a: Action, t: nat)
    requires s.sticky && StickyInv(s) && Enabled(s, a) && a.t != t
    requires t < |s.pcs| && InWait(s.pcs[t]) && At(Do(s, a), t, Idle)
    ensures IsAsleep(s.pcs[t]) && (At(s, a.t, SignalAll) || At(s, a.t, PulseAll))
  {
    assert StickyThread(s, a.t);
    Bystander(s, a, t);
  }

  /** On a sticky event Wait returns by reading a signaled state, or woken by another thread's
      signal to everybody. */
  lemma StickyWaitReturns(s: Event, a: Action, t: nat)
    requires Reachable(Init, Next, s) && s.sticky && Enabled(s, a)
    requires t < |s.pcs| && InWait(s.pcs[t]) && At(Do(s, a), t, Idle)
    ensures if a.t == t then s.state == 1
            else IsAsleep(s.pcs[t]) && (At(s, a.t, SignalAll) || At(s, a.t, PulseAll))
  {
    ReachableInv(s);
    if t == a.t { StickyWaitOwn(s, a); } else { StickyWaitOther(s, a, t); }
  }

  /** Where a Wait alone can be after k of its own steps. */
  predicate Waiting(pc: Pc, state: int, k: nat) {
    match pc
    case WaitIsCleared => k == 0
    case WaitOnCleared => k == 1 && state == CLEARED_STICKY
    case AsleepLeaving => k == 2 && state == CLEARED_STICKY
    case WaitIsOneshot => k == 1 && state != CLEARED_STICKY
    case WaitInLoop => k == 2 && state == CLEARED_ONESHOT
    case AsleepLooping => k == 3 && state == CLEARED_ONESHOT
    case WaitIsSticky => k == 2 && state >= 0
    case WaitIsSignaled => k == 3 && state == SIGNALED_ONESHOT
    case WaitReset => k == 4 && state == SIGNALED_ONESHOT
    case _ => false
  }

  lemma WaitStep(s: Event, s': Event, t: nat, k: nat)
    requires Proper(s) && Own(s, s', t) && t < |s.pcs| && Waiting(s.pcs[t], s.state, k)
    ensures t < |s'.pcs|
    ensures (s'.state == s.state && Waiting(s'.pcs[t], s.state, k + 1))
            || (Signaled(s) && At(s', t, Idle))
  {
    var a: Action :| a.t == t && Enabled(s, a) && s' == Do(s, a);
    assert a == Step(t);
  }

  lemma {:induction false} WaitingAlone(trace: seq<Event>, i: nat, k: nat, t: nat)
    requires IsTrace(Init, Next, trace) && i <= k < |trace| && At(trace[i], t, WaitIsCleared)
    requires Alone(trace, i, k, t) && forall m :: i <= m <= k ==> !At(trace[m], t, Idle)
    ensures trace[k].state == trace[i].state && t < |trace[k].pcs|
    ensures Waiting(trace[k].pcs[t], trace[i].state, k - i)
  {
    if i < k {
      WaitingAlone(trace, i, k - 1, t);
      StatesProper(trace, k - 1);
      assert OwnAt(trace, k - 1, t) && !At(trace[k], t, Idle);
      WaitStep(trace[k - 1], trace[k], t, k - i - 1);
    }
  }

  /** A Wait with nobody else stepping: called on a signaled event it never sleeps and cannot
      take more than five steps, called on a cleared one it never returns. */
  lemma WaitAlone(trace: seq<Event>, i: nat, j: nat, t: nat)
    requires Inside(trace, i, j, t, WaitIsCleared) && i + 1 < j && Alone(trace, i + 1, j, t)
    ensures t < |trace[j].pcs|
    ensures if trace[i].state >= 0 then !IsAsleep(trace[j].pcs[t]) && j - i <= 6
            else InWait(trace[j].pcs[t])
  {
    AtEntry(trace, i, j, t, WaitIsCleared);
    WaitingAlone(trace, i + 1, j - 1, t);
    StatesProper(trace, j - 1);
    assert OwnAt(trace, j - 1, t);
    WaitStep(trace[j - 1], trace[j], t, j - i - 2);
  }
}
