/** The light event, one-shot and sticky, with its embedded light lock. Every read of the
    state word, every exclusive loop and every arbiter call is its own action. */
module LightEvent {
  import opened Counting
  import opened Machines
  import LightLock

  const CLEARED_STICKY := -2
  const CLEARED_ONESHOT := -1
  const SIGNALED_ONESHOT := 0
  const SIGNALED_STICKY := 1

  datatype Pc =
    | Idle
    // Wait: the reads of synchronization.c:314, 319, 321 and 323, the reset, the two arbiter calls
    | WaitIsCleared | WaitOnCleared | WaitIsOneshot | WaitIsSticky | WaitIsSignaled | WaitReset | WaitInLoop
    | AsleepLeaving  // asleep; returns when woken
    | AsleepLooping  // asleep; looks again when woken
    // TryWait
    | TryIsSticky | TryReset
    // Signal
    | SignalIsOneshot | SignalStore | SignalOne | SignalIsSticky
    | SignalLocking | SignalStoreSticky | SignalAll | SignalUnlocking | SignalUnlocked
    // Clear
    | ClearIsSticky | ClearLocking | ClearStoreSticky | ClearUnlocking | ClearUnlocked
    | ClearIsOneshot | ClearStore
    // Pulse
    | PulseIsSticky | PulseAll | PulseIsOneshot | PulseOne

  /** `stores` counts the stores of SIGNALED_ONESHOT and `wins` the successful resets; `owed`
      is the set of threads that slept at the latest sticky signal's store and have not been
      woken since. */
  datatype Event = Event(sticky: bool, state: int, inner: LightLock.Lock, pcs: seq<Pc>,
                         stores: nat, wins: nat, owed: set<nat>)

  datatype Action =
    | Call(t: nat, entry: Pc)
    | Step(t: nat)
    | Inner(t: nat, step: LightLock.Action)
    | Wake(t: nat, sleeper: nat)
    | WakeNobody(t: nat)

  predicate IsEntry(pc: Pc) {
    pc in {WaitIsCleared, TryIsSticky, SignalIsOneshot, ClearIsSticky, PulseIsSticky}
  }

  predicate InLock(pc: Pc) {
    pc in {SignalLocking, SignalUnlocking, SignalUnlocked, ClearLocking, ClearUnlocking, ClearUnlocked}
  }

  predicate IsAsleep(pc: Pc) {
    pc.AsleepLeaving? || pc.AsleepLooping?
  }

  function Woken(pc: Pc): Pc {
    match pc
    case AsleepLeaving => Idle
    case AsleepLooping => WaitIsCleared
    case _ => pc
  }

  function Sleepers(pc: Pc): nat { if IsAsleep(pc) then 1 else 0 }

  /** About to signal after a one-shot store, or awake inside Wait. */
  function Alert(pc: Pc): nat {
    if pc in {SignalOne, WaitIsCleared, WaitOnCleared, WaitIsOneshot, WaitIsSticky, WaitIsSignaled,
              WaitReset, WaitInLoop} then 1 else 0
  }

  predicate At(s: Event, t: nat, pc: Pc) {
    t < |s.pcs| && s.pcs[t] == pc
  }

  ghost predicate Init(s: Event) {
    && s.state == (if s.sticky then CLEARED_STICKY else CLEARED_ONESHOT)
    && LightLock.Init(s.inner) && s.inner.word == 1 && |s.inner.pcs| == |s.pcs|
    && (forall t :: 0 <= t < |s.pcs| ==> s.pcs[t] == Idle)
    && s.stores == 0 && s.wins == 0 && s.owed == {}
  }

  ghost predicate Enabled(s: Event, a: Action) {
    && a.t < |s.pcs| == |s.inner.pcs|
    && match a
       case Call(t, entry) => s.pcs[t] == Idle && IsEntry(entry)
       case Step(t) =>
         !s.pcs[t].Idle? && !IsAsleep(s.pcs[t]) && !InLock(s.pcs[t]) && !s.pcs[t].SignalOne? && !s.pcs[t].PulseOne?
       case Inner(t, step) =>
         InLock(s.pcs[t]) && step.t == t && LightLock.Enabled(s.inner, step) && LockCall(s.pcs[t], step)
       case Wake(t, u) => s.pcs[t] in {SignalOne, PulseOne} && u < |s.pcs| && IsAsleep(s.pcs[u])
       case WakeNobody(t) => s.pcs[t] in {SignalOne, PulseOne} && Total(s.pcs, Sleepers) == 0
  }

  predicate LockCall(pc: Pc, step: LightLock.Action) {
    match pc
    case SignalLocking => step.Enter? || step.Arbitrate? || step.Retry?
    case ClearLocking => step.Enter? || step.Arbitrate? || step.Retry?
    case SignalUnlocking => step.Unlock?
    case ClearUnlocking => step.Unlock?
    case SignalUnlocked => step.Wake? || step.WakeNobody?
    case ClearUnlocked => step.Wake? || step.WakeNobody?
    case _ => false
  }

  function Goto(s: Event, t: nat, pc: Pc): Event
    requires t < |s.pcs|
  {
    s.(pcs := s.pcs[t := pc])
  }

  function Asleep(s: Event): set<nat> {
    set t: nat | t < |s.pcs| && IsAsleep(s.pcs[t])
  }

  function WakeEverybody(s: Event): Event {
    s.(pcs := seq(|s.pcs|, i requires 0 <= i < |s.pcs| => Woken(s.pcs[i])), owed := {})
  }

  /** One access to the state word, or one signal to everybody. */
  function Access(s: Event, t: nat): Event
    requires t < |s.pcs|
  {
    match s.pcs[t]
    case WaitIsCleared => Goto(s, t, if s.state == CLEARED_STICKY then WaitOnCleared else WaitIsOneshot)
    case WaitOnCleared => Goto(s, t, if s.state < SIGNALED_ONESHOT then AsleepLeaving else Idle)
    case WaitIsOneshot => Goto(s, t, if s.state != CLEARED_ONESHOT then WaitIsSticky else WaitInLoop)
    case WaitIsSticky => Goto(s, t, if s.state == SIGNALED_STICKY then Idle else WaitIsSignaled)
    case WaitIsSignaled => Goto(s, t, if s.state == SIGNALED_ONESHOT then WaitReset else WaitInLoop)
    case WaitReset =>
      if s.state != 0 then Goto(s, t, WaitInLoop)
      else Goto(s.(state := CLEARED_ONESHOT, wins := s.wins + 1), t, Idle)
    case WaitInLoop => Goto(s, t, if s.state < SIGNALED_ONESHOT then AsleepLooping else WaitIsCleared)
    case TryIsSticky => Goto(s, t, if s.state == SIGNALED_STICKY then Idle else TryReset)
    case TryReset =>
      if s.state != 0 then Goto(s, t, Idle)
      else Goto(s.(state := CLEARED_ONESHOT, wins := s.wins + 1), t, Idle)
    case SignalIsOneshot => Goto(s, t, if s.state == CLEARED_ONESHOT then SignalStore else SignalIsSticky)
    case SignalStore => Goto(s.(state := SIGNALED_ONESHOT, stores := s.stores + 1), t, SignalOne)
    case SignalIsSticky => Goto(s, t, if s.state == CLEARED_STICKY then SignalLocking else Idle)
    case SignalStoreSticky => Goto(s.(state := SIGNALED_STICKY, owed := Asleep(s)), t, SignalAll)
    case SignalAll => Goto(WakeEverybody(s), t, SignalUnlocking)
    case ClearIsSticky => Goto(s, t, if s.state == SIGNALED_STICKY then ClearLocking else ClearIsOneshot)
    case ClearStoreSticky => Goto(s.(state := CLEARED_STICKY), t, ClearUnlocking)
    case ClearIsOneshot => Goto(s, t, if s.state == SIGNALED_ONESHOT then ClearStore else Idle)
    case ClearStore => Goto(s.(state := CLEARED_ONESHOT), t, Idle)
    case PulseIsSticky => Goto(s, t, if s.state == CLEARED_STICKY then PulseAll else PulseIsOneshot)
    case PulseAll => Goto(WakeEverybody(s), t, Idle)
    case PulseIsOneshot => Goto(s, t, if s.state == CLEARED_ONESHOT then PulseOne else ClearIsSticky)
    case _ => s
  }

  /** Where the thread goes once its inner lock call has got this far. */
  function AfterLock(pc: Pc, inner: LightLock.Pc): Pc {
    match pc
    case SignalLocking => if inner.Holding? then SignalStoreSticky else SignalLocking
    case ClearLocking => if inner.Holding? then ClearStoreSticky else ClearLocking
    case SignalUnlocking => if inner.Signaling? then SignalUnlocked else Idle
    case ClearUnlocking => if inner.Signaling? then ClearUnlocked else Idle
    case _ => Idle
  }

  ghost function Do(s: Event, a: Action): Event
    requires Enabled(s, a)
  {
    match a
    case Call(t, entry) => Goto(s, t, entry)
    case Step(t) => Access(s, t)
    case Inner(t, step) =>
      var inner := LightLock.Do(s.inner, step);
      Goto(s.(inner := inner), t, AfterLock(s.pcs[t], inner.pcs[t]))
    case Wake(t, u) => s.(pcs := s.pcs[u := Woken(s.pcs[u])][t := Idle], owed := s.owed - {u})
    case WakeNobody(t) => Goto(s, t, Idle)
  }

  ghost predicate Next(s: Event, s': Event) {
    exists a :: Enabled(s, a) && s' == Do(s, a)
  }

  // One-shot events.

  /** The positions a thread can be in on a one-shot event. */
  predicate OneshotPc(pc: Pc) {
    pc in {Idle, WaitIsCleared, WaitIsOneshot, WaitIsSticky, WaitIsSignaled, WaitReset, WaitInLoop, AsleepLooping,
           TryIsSticky, TryReset, SignalIsOneshot, SignalStore, SignalOne, SignalIsSticky,
           ClearIsSticky, ClearIsOneshot, ClearStore, PulseIsSticky, PulseIsOneshot, PulseOne}
  }

  ghost predicate OneshotInv(s: Event) {
    !s.sticky ==>
      && (s.state == CLEARED_ONESHOT || s.state == SIGNALED_ONESHOT)
      && (forall t :: 0 <= t < |s.pcs| ==> OneshotPc(s.pcs[t]))
      && s.wins + (if s.state == SIGNALED_ONESHOT then 1 else 0) <= s.stores
      && (s.state == SIGNALED_ONESHOT && Total(s.pcs, Sleepers) > 0 ==> Total(s.pcs, Alert) > 0)
  }

  lemma MoveTotals(pcs: seq<Pc>, t: nat, pc: Pc)
    requires t < |pcs|
    ensures Total(pcs[t := pc], Sleepers) == Total(pcs, Sleepers) - Sleepers(pcs[t]) + Sleepers(pc)
    ensures Total(pcs[t := pc], Alert) == Total(pcs, Alert) - Alert(pcs[t]) + Alert(pc)
  {
    TotalUpdate(pcs, t, pc, Sleepers);
    TotalUpdate(pcs, t, pc, Alert);
  }

  /** What an action does to the threads that do not take it: at most, wake them. */
  lemma Bystander(s: Event, a: Action, u: nat)
    requires Enabled(s, a) && u < |s.pcs| && u != a.t
    ensures |Do(s, a).pcs| == |s.pcs|
    ensures Do(s, a).pcs[u] == s.pcs[u] || Do(s, a).pcs[u] == Woken(s.pcs[u])
  {
  }

  lemma OneshotPositions(s: Event, a: Action)
    requires !s.sticky && OneshotInv(s) && Enabled(s, a)
    ensures |Do(s, a).pcs| == |s.pcs|
    ensures forall t :: 0 <= t < |s.pcs| ==> OneshotPc(Do(s, a).pcs[t])
  {
    assert OneshotPc(s.pcs[a.t]);
    forall t | 0 <= t < |s.pcs| ensures OneshotPc(Do(s, a).pcs[t]) {
      assert OneshotPc(s.pcs[t]);
      if t != a.t { Bystander(s, a, t); }
    }
  }

  lemma OneshotWins(s: Event, a: Action)
    requires !s.sticky && OneshotInv(s) && Enabled(s, a)
    ensures var s' := Do(s, a);
            && (s'.state == CLEARED_ONESHOT || s'.state == SIGNALED_ONESHOT)
            && s'.wins + (if s'.state == SIGNALED_ONESHOT then 1 else 0) <= s'.stores
  {
    assert OneshotPc(s.pcs[a.t]);
  }

  lemma OneshotAlert(s: Event, a: Action)
    requires !s.sticky && OneshotInv(s) && Enabled(s, a) && !a.Wake?
    ensures var s' := Do(s, a);
            s'.state == SIGNALED_ONESHOT && Total(s'.pcs, Sleepers) > 0 ==> Total(s'.pcs, Alert) > 0
  {
    assert OneshotPc(s.pcs[a.t]);
    MoveTotals(s.pcs, a.t, Do(s, a).pcs[a.t]);
    TotalAtLeast(s.pcs, a.t, Alert);
  }

  lemma OneshotWake(s: Event, a: Action)
    requires !s.sticky && OneshotInv(s) && Enabled(s, a) && a.Wake?
    ensures Total(Do(s, a).pcs, Alert) > 0
  {
    assert OneshotPc(s.pcs[a.t]) && OneshotPc(s.pcs[a.sleeper]);
    TotalAtLeast(Do(s, a).pcs, a.sleeper, Alert);
  }

  lemma StepOneshot(s: Event, a: Action)
    requires OneshotInv(s) && Enabled(s, a)
    ensures OneshotInv(Do(s, a))
  {
    if !s.sticky {
      OneshotPositions(s, a);
      OneshotWins(s, a);
      if a.Wake? { OneshotWake(s, a); } else { OneshotAlert(s, a); }
    }
  }

  // Sticky events.

  /** What a thread's position on a sticky event says about the inner lock. */
  predicate StickyThread(s: Event, t: nat)
    requires t < |s.pcs| == |s.inner.pcs|
  {
    var inner := s.inner.pcs[t];
    match s.pcs[t]
    case SignalLocking => inner.Idle? || inner.ToWait? || inner.Asleep? || inner.Awake?
    case ClearLocking => inner.Idle? || inner.ToWait? || inner.Asleep? || inner.Awake?
    case SignalStoreSticky => inner.Holding?
    case SignalAll => inner.Holding? && s.state == SIGNALED_STICKY
    case SignalUnlocking => inner.Holding?
    case ClearStoreSticky => inner.Holding?
    case ClearUnlocking => inner.Holding?
    case SignalUnlocked => inner.Signaling?
    case ClearUnlocked => inner.Signaling?
    case SignalStore => false
    case SignalOne => false
    case ClearStore => false
    case PulseOne => false
    case WaitReset => false
    case _ => inner.Idle?
  }

  ghost predicate StickyInv(s: Event) {
    s.sticky ==>
      && LightLock.Inv(s.inner) && |s.inner.pcs| == |s.pcs|
      && (s.state == CLEARED_STICKY || s.state == SIGNALED_STICKY)
      && (forall t :: 0 <= t < |s.pcs| ==> StickyThread(s, t))
      && (forall t :: t in s.owed ==> t < |s.pcs| && IsAsleep(s.pcs[t]))
      && (s.owed != {} ==> Broadcasting(s))
      && (s.state == SIGNALED_STICKY ==> forall t :: 0 <= t < |s.pcs| && IsAsleep(s.pcs[t]) ==> t in s.owed)
  }

  /** A signaler has stored and is about to wake everybody, holding the inner lock. */
  ghost predicate Broadcasting(s: Event) {
    exists b: nat :: At(s, b, SignalAll)
  }

  lemma HolderIsUnique(s: Event, t: nat, u: nat)
    requires LightLock.Inv(s.inner) && t < |s.inner.pcs| && u < |s.inner.pcs|
    requires s.inner.pcs[t].Holding? && s.inner.pcs[u].Holding?
    ensures t == u
  {
    if t != u {
      TotalAtLeastTwo(s.inner.pcs, t, u, LightLock.Holders);
    }
  }

  lemma InnerKept(s: Event, a: Action)
    requires LightLock.Inv(s.inner) && Enabled(s, a)
    ensures LightLock.Inv(Do(s, a).inner) && |Do(s, a).inner.pcs| == |s.inner.pcs| && |Do(s, a).pcs| == |s.pcs|
  {
    if a.Inner? {
      LightLock.StepInv(s.inner, a.step);
    }
  }

  lemma StickySelf(s: Event, a: Action)
    requires s.sticky && StickyInv(s) && Enabled(s, a)
    requires |Do(s, a).pcs| == |Do(s, a).inner.pcs| == |s.pcs|
    ensures StickyThread(Do(s, a), a.t)
  {
    assert StickyThread(s, a.t);
  }

  lemma InnerBystander(s: Event, a: Action, u: nat)
    requires Enabled(s, a) && u < |s.pcs| && u != a.t
    ensures |Do(s, a).inner.pcs| == |s.inner.pcs|
    ensures Do(s, a).inner.pcs[u] == s.inner.pcs[u]
            || (s.inner.pcs[u].Asleep? && Do(s, a).inner.pcs[u].Awake?)
  {
  }

  lemma StickyOther(s: Event, a: Action, u: nat)
    requires s.sticky && StickyInv(s) && Enabled(s, a)
    requires |Do(s, a).pcs| == |Do(s, a).inner.pcs| == |s.pcs|
    requires u < |s.pcs| && u != a.t
    ensures StickyThread(Do(s, a), u)
  {
    assert StickyThread(s, a.t) && StickyThread(s, u);
    Bystander(s, a, u);
    InnerBystander(s, a, u);
    StickyState(s, a);
    if s.inner.pcs[a.t].Holding? && s.inner.pcs[u].Holding? {
      HolderIsUnique(s, a.t, u);
    }
    StickyFrame(s, Do(s, a), u);
  }

  /** A thread stays well placed while the inner lock and the state move under it this much. */
  lemma StickyFrame(s: Event, s': Event, u: nat)
    requires u < |s.pcs| == |s.inner.pcs| == |s'.pcs| == |s'.inner.pcs| && StickyThread(s, u)
    requires s'.pcs[u] == s.pcs[u] || s'.pcs[u] == Woken(s.pcs[u])
    requires s'.inner.pcs[u] == s.inner.pcs[u] || (s.inner.pcs[u].Asleep? && s'.inner.pcs[u].Awake?)
    requires s'.state == s.state || !s.inner.pcs[u].Holding?
    ensures StickyThread(s', u)
  {
  }

  /** A broadcaster excludes every other holder of the inner lock. */
  lemma BroadcasterIsOnlyHolder(s: Event, t: nat)
    requires s.sticky && StickyInv(s) && t < |s.pcs| && s.inner.pcs[t].Holding? && !s.pcs[t].SignalAll?
    ensures s.owed == {}
  {
    if s.owed != {} {
      var b: nat :| At(s, b, SignalAll);
      assert StickyThread(s, b);
      HolderIsUnique(s, b, t);
    }
  }

  lemma StickyState(s: Event, a: Action)
    requires s.sticky && StickyInv(s) && Enabled(s, a)
    ensures Do(s, a).state == CLEARED_STICKY || Do(s, a).state == SIGNALED_STICKY
    ensures Do(s, a).state != s.state ==>
              s.inner.pcs[a.t].Holding? && s.pcs[a.t] in {SignalStoreSticky, ClearStoreSticky}
  {
    assert StickyThread(s, a.t);
  }

  lemma StickyOwed(s: Event, a: Action)
    requires s.sticky && StickyInv(s) && Enabled(s, a)
    ensures var s' := Do(s, a);
            && (forall t :: t in s'.owed ==> t < |s'.pcs| && IsAsleep(s'.pcs[t]))
            && (s'.state == SIGNALED_STICKY ==> forall t :: 0 <= t < |s'.pcs| && IsAsleep(s'.pcs[t]) ==> t in s'.owed)
  {
    StickyState(s, a);
    assert StickyThread(s, a.t);
  }

  lemma StickyBroadcast(s: Event, a: Action)
    requires s.sticky && StickyInv(s) && Enabled(s, a)
    ensures Do(s, a).owed != {} ==> Broadcasting(Do(s, a))
  {
    var s' := Do(s, a);
    assert StickyThread(s, a.t);
    if s'.owed != {} {
      if s.pcs[a.t] == SignalStoreSticky {
        assert At(s', a.t, SignalAll);
      } else {
        assert s.owed != {};
        var b: nat :| At(s, b, SignalAll);
        assert b != a.t;
        assert At(s', b, SignalAll);
      }
    }
  }

  lemma StepSticky(s: Event, a: Action)
    requires StickyInv(s) && Enabled(s, a)
    ensures StickyInv(Do(s, a))
  {
    if s.sticky {
      InnerKept(s, a);
      StickyState(s, a);
      StickyOwed(s, a);
      StickyBroadcast(s, a);
      forall t | 0 <= t < |s.pcs| ensures StickyThread(Do(s, a), t) {
        if t == a.t { StickySelf(s, a); } else { StickyOther(s, a, t); }
      }
    }
  }

  // Reachable states.

  ghost predicate Inv(s: Event) {
    OneshotInv(s) && StickyInv(s)
  }

  lemma ReachableInv(s: Event)
    requires Reachable(Init, Next, s)
    ensures Inv(s)
  {
    forall s | Init(s) ensures Inv(s) {
      LightLock.InitInv(s.inner);
      TotalZero(s.pcs, Sleepers);
    }
    forall s, s' | Inv(s) && Next(s, s') ensures Inv(s') {
      var a :| Enabled(s, a) && s' == Do(s, a);
      StepOneshot(s, a);
      StepSticky(s, a);
    }
    Invariance(Init, Next, Inv, s);
  }

  /** There are never more successes than stores of SIGNALED_ONESHOT. */
  lemma OneWinPerStore(s: Event)
    requires Reachable(Init, Next, s) && !s.sticky
    ensures s.wins <= s.stores
    ensures s.state == SIGNALED_ONESHOT ==> s.wins < s.stores
  {
    ReachableInv(s);
  }

  predicate InWait(pc: Pc) {
    pc in {WaitIsCleared, WaitOnCleared, WaitIsOneshot, WaitIsSticky, WaitIsSignaled, WaitReset, WaitInLoop}
    || IsAsleep(pc)
  }

  /** All the ways in which an action lets a Wait return or a TryWait return 1. */
  ghost predicate LetsThrough(s: Event, a: Action)
    requires Enabled(s, a)
  {
    match a
    case Step(t) =>
      (match s.pcs[t]
       case WaitReset => s.state == 0
       case TryReset => s.state == 0
       case WaitIsSticky => s.state == SIGNALED_STICKY
       case TryIsSticky => s.state == SIGNALED_STICKY
       case WaitOnCleared => s.state >= SIGNALED_ONESHOT
       case SignalAll => exists u :: 0 <= u < |s.pcs| && s.pcs[u].AsleepLeaving?
       case PulseAll => exists u :: 0 <= u < |s.pcs| && s.pcs[u].AsleepLeaving?
       case _ => false)
    case Wake(_, u) => s.pcs[u].AsleepLeaving?
    case _ => false
  }

  ghost predicate Succeeds(s: Event, s': Event) {
    exists a :: Enabled(s, a) && s' == Do(s, a) && LetsThrough(s, a)
  }

  ghost predicate OneshotStores(s: Event, s': Event) {
    exists t: nat :: At(s, t, SignalStore) && Enabled(s, Step(t)) && s' == Do(s, Step(t))
  }

  /** On a one-shot event a success is a taken store, whoever succeeds. */
  lemma SuccessTakes(s: Event, s': Event)
    requires Reachable(Init, Next, s) && !s.sticky && Succeeds(s, s')
    ensures s.state == SIGNALED_ONESHOT && s'.state == CLEARED_ONESHOT && s'.wins == s.wins + 1 && !s'.sticky
  {
    ReachableInv(s);
    var a :| Enabled(s, a) && s' == Do(s, a) && LetsThrough(s, a);
    assert OneshotPc(s.pcs[a.t]);
  }

  /** Only a one-shot store makes a cleared one-shot event signaled. */
  lemma StaysCleared(s: Event, s': Event)
    requires Reachable(Init, Next, s) && !s.sticky && Next(s, s') && !OneshotStores(s, s')
    requires s.state == CLEARED_ONESHOT
    ensures s'.state == CLEARED_ONESHOT && !s'.sticky
  {
    ReachableInv(s);
    var a :| Enabled(s, a) && s' == Do(s, a);
    assert OneshotPc(s.pcs[a.t]);
    assert a == Step(a.t) ==> !At(s, a.t, SignalStore);
  }

  ghost predicate StoreAt(trace: seq<Event>, k: int)
    requires 0 <= k < |trace| - 1
  {
    OneshotStores(trace[k], trace[k + 1])
  }

  lemma {:induction false} ClearedUntilStore(trace: seq<Event>, i: nat, j: nat)
    requires IsTrace(Init, Next, trace) && i <= j < |trace|
    requires !trace[i].sticky && trace[i].state == CLEARED_ONESHOT
    requires forall k :: i <= k < j ==> !StoreAt(trace, k)
    ensures !trace[j].sticky && trace[j].state == CLEARED_ONESHOT
  {
    if i < j {
      ClearedUntilStore(trace, i, j - 1);
      PrefixReachable(Init, Next, trace, j - 1);
      assert StepAt(Next, trace, j - 1) && !StoreAt(trace, j - 1);
      StaysCleared(trace[j - 1], trace[j]);
    }
  }

  lemma NoneUntilStore(trace: seq<Event>, i: nat, j: nat)
    requires IsTrace(Init, Next, trace) && i <= j < |trace| - 1
    requires !trace[i].sticky && trace[i].state == CLEARED_ONESHOT
    requires forall k :: i <= k < j ==> !StoreAt(trace, k)
    ensures !Succeeds(trace[j], trace[j + 1])
  {
    ClearedUntilStore(trace, i, j);
    PrefixReachable(Init, Next, trace, j);
    if Succeeds(trace[j], trace[j + 1]) {
      SuccessTakes(trace[j], trace[j + 1]);
    }
  }

  lemma SuccessClears(trace: seq<Event>, i: nat)
    requires IsTrace(Init, Next, trace) && i < |trace| - 1 && !trace[i].sticky
    requires Succeeds(trace[i], trace[i + 1])
    ensures trace[i + 1].state == CLEARED_ONESHOT && !trace[i + 1].sticky
  {
    PrefixReachable(Init, Next, trace, i);
    SuccessTakes(trace[i], trace[i + 1]);
  }

  /** Each store of SIGNALED_ONESHOT lets at most one Wait or TryWait through: in any run, some
      thread stores between any two successes. */
  lemma OneSuccessPerStore(trace: seq<Event>, i: nat, j: nat)
    requires IsTrace(Init, Next, trace) && i < j < |trace| - 1 && !trace[i].sticky
    requires Succeeds(trace[i], trace[i + 1]) && Succeeds(trace[j], trace[j + 1])
    ensures exists k :: i < k < j && StoreAt(trace, k)
  {
    SuccessClears(trace, i);
    if forall k :: i < k < j ==> !StoreAt(trace, k) {
      NoneUntilStore(trace, i + 1, j);
    }
  }

  /** On a one-shot event Wait returns only by taking a store, which is gone then. Being woken is
      not enough, so Pulse lets nobody through. */
  lemma WaitReturnsByTaking(s: Event, a: Action, t: nat)
    requires Reachable(Init, Next, s) && !s.sticky && Enabled(s, a)
    requires t < |s.pcs| == |Do(s, a).pcs| && InWait(s.pcs[t]) && Do(s, a).pcs[t] == Idle
    ensures a == Step(t) && LetsThrough(s, a) && s.state == SIGNALED_ONESHOT
    ensures Do(s, a).state == CLEARED_ONESHOT && Do(s, a).wins == s.wins + 1
  {
    ReachableInv(s);
    if t != a.t {
      Bystander(s, a, t);
    }
  }

  /** A thread asleep on a signaled one-shot event has a signal coming, or another waiter
      awake to take it. */
  lemma OneshotNotForgotten(s: Event, sleeper: nat) returns (alert: nat)
    requires Reachable(Init, Next, s) && !s.sticky
    requires s.state == SIGNALED_ONESHOT && sleeper < |s.pcs| && IsAsleep(s.pcs[sleeper])
    ensures alert < |s.pcs| && Alert(s.pcs[alert]) == 1
  {
    ReachableInv(s);
    TotalAtLeast(s.pcs, sleeper, Sleepers);
    alert := TotalPositive(s.pcs, Alert);
  }

  /** Nobody sleeps on a signaled sticky event but for the moment between a signaler's store
      and its wakeup of everybody. */
  lemma StickyNotForgotten(s: Event, sleeper: nat) returns (signaler: nat)
    requires Reachable(Init, Next, s) && s.sticky
    requires s.state == SIGNALED_STICKY && sleeper < |s.pcs| && IsAsleep(s.pcs[sleeper])
    ensures At(s, signaler, SignalAll) && LightLock.At(s.inner, signaler, LightLock.Holding)
  {
    ReachableInv(s);
    assert sleeper in s.owed;
    signaler :| At(s, signaler, SignalAll);
    assert StickyThread(s, signaler);
  }

  /** Whoever slept at a sticky signal's store has been woken before any later store by Clear
      or Signal, because both stores are made under the inner lock. */
  lemma WokenBeforeNextStore(s: Event, t: nat)
    requires Reachable(Init, Next, s) && s.sticky
    requires At(s, t, ClearStoreSticky) || At(s, t, SignalStoreSticky)
    ensures s.owed == {}
    ensures s.state == SIGNALED_STICKY ==> Asleep(s) == {}
  {
    ReachableInv(s);
    assert StickyThread(s, t);
    BroadcasterIsOnlyHolder(s, t);
  }

  lemma OwedStays(s: Event, a: Action, u: nat)
    requires s.sticky && StickyInv(s) && Enabled(s, a)
    requires u in s.owed && u < |Do(s, a).pcs| && IsAsleep(Do(s, a).pcs[u])
    ensures u in Do(s, a).owed
  {
    assert StickyThread(s, a.t);
  }

  ghost predicate StickySignalStores(s: Event, s': Event) {
    exists t: nat :: At(s, t, SignalStoreSticky) && Enabled(s, Step(t)) && s' == Do(s, Step(t))
  }

  lemma OwedThroughStep(trace: seq<Event>, j: nat, u: nat)
    requires IsTrace(Init, Next, trace) && j + 1 < |trace|
    requires trace[j].sticky && u in trace[j].owed
    requires u < |trace[j + 1].pcs| && IsAsleep(trace[j + 1].pcs[u])
    ensures trace[j + 1].sticky && u in trace[j + 1].owed
  {
    PrefixReachable(Init, Next, trace, j);
    ReachableInv(trace[j]);
    assert StepAt(Next, trace, j);
    var a :| Enabled(trace[j], a) && trace[j + 1] == Do(trace[j], a);
    OwedStays(trace[j], a, u);
  }

  lemma OwedAtStore(s: Event, s': Event, u: nat)
    requires s.sticky && StickySignalStores(s, s') && u < |s.pcs| && IsAsleep(s.pcs[u])
    ensures s'.sticky && u in s'.owed
  {
    var t: nat :| At(s, t, SignalStoreSticky) && Enabled(s, Step(t)) && s' == Do(s, Step(t));
    assert u in Asleep(s);
  }

  lemma {:induction false} SleeperStaysOwed(trace: seq<Event>, i: nat, j: nat, u: nat)
    requires IsTrace(Init, Next, trace) && i < j < |trace|
    requires trace[i].sticky && StickySignalStores(trace[i], trace[i + 1])
    requires forall m :: i <= m <= j ==> u < |trace[m].pcs| && IsAsleep(trace[m].pcs[u])
    ensures trace[j].sticky && u in trace[j].owed
  {
    if i + 1 < j {
      SleeperStaysOwed(trace, i, j - 1, u);
      OwedThroughStep(trace, j - 1, u);
    } else {
      OwedAtStore(trace[i], trace[j], u);
    }
  }

  /** In any run: a thread asleep when a sticky signal is stored has been woken by the time
      any thread is about to store for a Clear (or another Signal). */
  lemma WokenBeforeAnyClear(trace: seq<Event>, i: nat, j: nat, u: nat, clearer: nat)
    requires IsTrace(Init, Next, trace) && i < j < |trace|
    requires trace[i].sticky && StickySignalStores(trace[i], trace[i + 1])
    requires u < |trace[i].pcs| && IsAsleep(trace[i].pcs[u])
    requires At(trace[j], clearer, ClearStoreSticky) || At(trace[j], clearer, SignalStoreSticky)
    ensures exists m :: i < m <= j && u < |trace[m].pcs| && !IsAsleep(trace[m].pcs[u])
  {
    SizesFixed(trace, i, j);
    if forall m :: i < m <= j ==> IsAsleep(trace[m].pcs[u]) {
      SleeperStaysOwed(trace, i, j, u);
      PrefixReachable(Init, Next, trace, j);
      WokenBeforeNextStore(trace[j], clearer);
      assert false;
    }
  }

  lemma {:induction false} SizesFixed(trace: seq<Event>, i: nat, j: nat)
    requires IsTrace(Init, Next, trace) && i <= j < |trace|
    ensures forall m :: i <= m <= j ==> |trace[m].pcs| == |trace[i].pcs|
  {
    if i < j {
      SizesFixed(trace, i, j - 1);
      assert StepAt(Next, trace, j - 1);
      StepSize(trace[j - 1], trace[j]);
    }
  }

  lemma StepSize(s: Event, s': Event)
    requires Next(s, s')
    ensures |s'.pcs| == |s.pcs|
  {
  }
}
