/** The light semaphore: a count, a separate 16-bit tally of threads about to sleep, and the
    address arbiter. Each action is one atomic access by one thread; a kernel signal wakes
    sleepers of the kernel's choosing. */
module LightSemaphore {
  import opened Counting
  import opened Machines

  datatype Pc =
    | Idle
    | Trying(count: int)            // about to look at the count
    | ToTally(count: int)           // found too little, about to add itself to the tally
    | ToWait(count: int)            // about to call the arbiter
    | Asleep(count: int)
    | ToUntally(count: int)         // about to remove itself from the tally
    | Stored(count: int, before: int)  // released, about to decide whether to signal
    | ToSignal(count: int)

  /** `counts` are the counts that callers of Acquire use; `initial`, `acquired` and `released`
      only record what has happened. */
  datatype Semaphore = Semaphore(
    current: int, tally: int, max: int, pcs: seq<Pc>,
    counts: set<int>, initial: int, acquired: int, released: int)

  datatype Action =
    | Acquire(t: nat, count: int)
    | Try(t: nat)
    | Tally(t: nat)
    | Arbitrate(t: nat)
    | Untally(t: nat)
    | TryAcquire(t: nat, count: int)
    | Release(t: nat, count: int)
    | Decide(t: nat)
    | Signal(t: nat, woken: seq<nat>)

  const S16_MAX := 0x7FFF

  /** Storing into the 16-bit tally. */
  function Wrap16(x: int): int {
    (x + 0x8000) % 0x1_0000 - 0x8000
  }

  function ReleasedCount(before: int, count: int, max: int): int {
    if before + count >= max then max else before + count
  }

  function Sleepers(pc: Pc): nat { if pc.Asleep? then 1 else 0 }
  function Tallied(pc: Pc): nat { if pc.ToWait? || pc.Asleep? || pc.ToUntally? then 1 else 0 }
  function AwakeAcquirers(pc: Pc): nat { if pc.Trying? || pc.ToTally? || pc.ToWait? || pc.ToUntally? then 1 else 0 }
  function InFlight(pc: Pc): nat { if (pc.Stored? || pc.ToSignal?) && pc.count >= 0 then pc.count else 0 }

  ghost predicate Init(s: Semaphore) {
    && 0 <= s.initial <= s.max <= S16_MAX
    && s.current == s.initial && s.tally == 0
    && s.acquired == 0 && s.released == 0
    && |s.pcs| <= S16_MAX
    && (forall t :: 0 <= t < |s.pcs| ==> s.pcs[t] == Idle)
    && forall c :: c in s.counts ==> c > 0
  }

  /** The kernel can wake these sleepers, one after another. */
  predicate CanWake(pcs: seq<Pc>, woken: seq<nat>)
    decreases |woken|
  {
    woken == [] ||
    (woken[0] < |pcs| && pcs[woken[0]].Asleep?
     && CanWake(pcs[woken[0] := ToUntally(pcs[woken[0]].count)], woken[1..]))
  }

  function WakeAll(pcs: seq<Pc>, woken: seq<nat>): (awake: seq<Pc>)
    requires CanWake(pcs, woken)
    ensures |awake| == |pcs|
    decreases |woken|
  {
    if woken == [] then pcs
    else WakeAll(pcs[woken[0] := ToUntally(pcs[woken[0]].count)], woken[1..])
  }

  ghost predicate Enabled(s: Semaphore, a: Action) {
    a.t < |s.pcs| &&
    match a
    case Acquire(t, c) => s.pcs[t].Idle? && c in s.counts
    case Try(t) => s.pcs[t].Trying?
    case Tally(t) => s.pcs[t].ToTally?
    case Arbitrate(t) => s.pcs[t].ToWait?
    case Untally(t) => s.pcs[t].ToUntally?
    case TryAcquire(t, c) => s.pcs[t].Idle? && c > 0
    // The sum of the count and what is released stays within 32 bits.
    case Release(t, c) => s.pcs[t].Idle? && 0 < c <= 0x7FFF_FFFF - S16_MAX
    case Decide(t) => s.pcs[t].Stored?
    case Signal(t, woken) =>
      && s.pcs[t].ToSignal? && CanWake(s.pcs, woken)
      && var sleepers := Total(s.pcs, Sleepers);
         |woken| == if s.pcs[t].count <= sleepers then s.pcs[t].count else sleepers
  }

  function Goto(s: Semaphore, t: nat, pc: Pc): Semaphore
    requires t < |s.pcs|
  {
    s.(pcs := s.pcs[t := pc])
  }

  ghost function Do(s: Semaphore, a: Action): Semaphore
    requires Enabled(s, a)
  {
    match a
    case Acquire(t, c) => Goto(s, t, Trying(c))
    case Try(t) =>
      var c := s.pcs[t].count;
      if s.current >= c then Goto(s.(current := s.current - c, acquired := s.acquired + c), t, Idle)
      else Goto(s, t, ToTally(c))
    case Tally(t) => Goto(s.(tally := Wrap16(s.tally + 1)), t, ToWait(s.pcs[t].count))
    case Arbitrate(t) =>
      var c := s.pcs[t].count;
      Goto(s, t, if s.current < c then Asleep(c) else ToUntally(c))
    case Untally(t) => Goto(s.(tally := Wrap16(s.tally - 1)), t, Trying(s.pcs[t].count))
    case TryAcquire(t, c) =>
      if s.current < c then s else s.(current := s.current - c, acquired := s.acquired + c)
    case Release(t, c) =>
      Goto(s.(current := ReleasedCount(s.current, c, s.max), released := s.released + c), t, Stored(c, s.current))
    case Decide(t) =>
      Goto(s, t, if s.pcs[t].before <= 0 || s.tally > 0 then ToSignal(s.pcs[t].count) else Idle)
    case Signal(t, woken) => s.(pcs := WakeAll(s.pcs, woken)[t := Idle])
  }

  ghost predicate Next(s: Semaphore, s': Semaphore) {
    exists a :: Enabled(s, a) && s' == Do(s, a)
  }

  predicate PcInv(s: Semaphore, pc: Pc) {
    match pc
    case Idle => true
    case Stored(c, _) => c > 0
    case ToSignal(c) => c > 0
    case Trying(c) => c in s.counts
    case ToTally(c) => c in s.counts
    case ToWait(c) => c in s.counts
    case Asleep(c) => c in s.counts
    case ToUntally(c) => c in s.counts
  }

  ghost predicate Inv(s: Semaphore) {
    && 0 <= s.current <= s.max <= S16_MAX
    && |s.pcs| <= S16_MAX
    && s.tally == Total(s.pcs, Tallied)
    && (forall c :: c in s.counts ==> c > 0)
    && (forall t :: 0 <= t < |s.pcs| ==> PcInv(s, s.pcs[t]))
    && s.acquired + s.current <= s.initial + s.released
  }

  /** How many signals are still to come, plus how many acquirers are awake. */
  ghost function Attention(s: Semaphore): nat {
    Total(s.pcs, InFlight) + Total(s.pcs, AwakeAcquirers)
  }

  /** With every Acquire asking for k, someone sleeping means that the k's to be had are no
      more than the releasers in flight and the awake acquirers will deal with. */
  ghost predicate Attended(s: Semaphore, k: int) {
    Total(s.pcs, Sleepers) > 0 ==> s.current < k * (Attention(s) + 1)
  }

  lemma MoveTotals(pcs: seq<Pc>, t: nat, pc: Pc)
    requires t < |pcs|
    ensures Total(pcs[t := pc], Sleepers) == Total(pcs, Sleepers) - Sleepers(pcs[t]) + Sleepers(pc)
    ensures Total(pcs[t := pc], Tallied) == Total(pcs, Tallied) - Tallied(pcs[t]) + Tallied(pc)
    ensures Total(pcs[t := pc], AwakeAcquirers) ==
            Total(pcs, AwakeAcquirers) - AwakeAcquirers(pcs[t]) + AwakeAcquirers(pc)
    ensures Total(pcs[t := pc], InFlight) == Total(pcs, InFlight) - InFlight(pcs[t]) + InFlight(pc)
    ensures Total(pcs, Sleepers) <= Total(pcs, Tallied) <= |pcs|
    ensures Total(pcs[t := pc], Tallied) <= |pcs|
  {
    TotalUpdate(pcs, t, pc, Sleepers);
    TotalUpdate(pcs, t, pc, Tallied);
    TotalUpdate(pcs, t, pc, AwakeAcquirers);
    TotalUpdate(pcs, t, pc, InFlight);
    TotalMonotone(pcs, Sleepers, Tallied);
    TotalBound(pcs, Tallied, 1);
    TotalBound(pcs[t := pc], Tallied, 1);
  }

  /** A signal turns sleepers into awake acquirers and touches nobody else. */
  lemma {:induction false} WakeTotals(pcs: seq<Pc>, woken: seq<nat>)
    requires CanWake(pcs, woken)
    ensures var awake := WakeAll(pcs, woken);
            && |awake| == |pcs|
            && (forall t :: 0 <= t < |pcs| ==>
                  awake[t] == pcs[t] || (pcs[t].Asleep? && awake[t] == ToUntally(pcs[t].count)))
            && Total(awake, Sleepers) == Total(pcs, Sleepers) - |woken|
            && Total(awake, Tallied) == Total(pcs, Tallied)
            && Total(awake, AwakeAcquirers) == Total(pcs, AwakeAcquirers) + |woken|
            && Total(awake, InFlight) == Total(pcs, InFlight)
    decreases |woken|
  {
    if woken != [] {
      var u := woken[0];
      MoveTotals(pcs, u, ToUntally(pcs[u].count));
      WakeTotals(pcs[u := ToUntally(pcs[u].count)], woken[1..]);
    }
  }

  lemma SignalTotals(s: Semaphore, a: Action)
    requires Inv(s) && Enabled(s, a) && a.Signal?
    ensures var s' := Do(s, a);
            && Total(s'.pcs, Sleepers) == Total(s.pcs, Sleepers) - |a.woken|
            && Total(s'.pcs, Tallied) == Total(s.pcs, Tallied)
            && Total(s'.pcs, AwakeAcquirers) == Total(s.pcs, AwakeAcquirers) + |a.woken|
            && Total(s'.pcs, InFlight) == Total(s.pcs, InFlight) - s.pcs[a.t].count
            && forall t :: 0 <= t < |s'.pcs| ==> PcInv(s', s'.pcs[t])
  {
    var awake := WakeAll(s.pcs, a.woken);
    WakeTotals(s.pcs, a.woken);
    MoveTotals(awake, a.t, Idle);
    assert PcInv(s, s.pcs[a.t]) && awake[a.t] == s.pcs[a.t];
    forall t | 0 <= t < |s.pcs| ensures PcInv(Do(s, a), Do(s, a).pcs[t]) {
      assert PcInv(s, s.pcs[t]);
    }
  }

  lemma OwnTally(s: Semaphore, a: Action)
    requires Inv(s) && Enabled(s, a) && !a.Signal?
    ensures |Do(s, a).pcs| == |s.pcs| && Do(s, a).pcs == s.pcs[a.t := Do(s, a).pcs[a.t]]
    ensures Do(s, a).tally == Wrap16(s.tally + Tallied(Do(s, a).pcs[a.t]) - Tallied(s.pcs[a.t]))
  {
    TotalBound(s.pcs, Tallied, 1);
  }

  lemma StepTally(s: Semaphore, a: Action)
    requires Inv(s) && Enabled(s, a) && !a.Signal?
    ensures Do(s, a).tally == Total(Do(s, a).pcs, Tallied)
  {
    OwnTally(s, a);
    MoveTotals(s.pcs, a.t, Do(s, a).pcs[a.t]);
  }

  lemma StepCount(s: Semaphore, a: Action)
    requires Inv(s) && Enabled(s, a)
    ensures var s' := Do(s, a);
            0 <= s'.current <= s'.max && s'.acquired + s'.current <= s'.initial + s'.released
  {
    assert PcInv(s, s.pcs[a.t]);
  }

  lemma StepInv(s: Semaphore, a: Action)
    requires Inv(s) && Enabled(s, a)
    ensures Inv(Do(s, a))
  {
    StepCount(s, a);
    if a.Signal? {
      SignalTotals(s, a);
    } else {
      StepTally(s, a);
      assert PcInv(s, s.pcs[a.t]);
    }
  }

  ghost function AttentionChange(s: Semaphore, a: Action): int
    requires Enabled(s, a)
  {
    match a
    case Acquire(_, _) => 1
    case Release(_, c) => c
    case Try(t) => if s.current >= s.pcs[t].count then -1 else 0
    case Arbitrate(t) => if s.current < s.pcs[t].count then -1 else 0
    case Decide(t) => if s.pcs[t].before <= 0 || s.tally > 0 then 0 else -s.pcs[t].count
    case Signal(t, woken) => |woken| - s.pcs[t].count
    case _ => 0
  }

  /** Except for a signal, an action moves its own thread alone. */
  lemma OwnMove(s: Semaphore, a: Action)
    requires Inv(s) && Enabled(s, a) && !a.Signal?
    ensures |Do(s, a).pcs| == |s.pcs| && Do(s, a).pcs == s.pcs[a.t := Do(s, a).pcs[a.t]]
    ensures var pc, pc' := s.pcs[a.t], Do(s, a).pcs[a.t];
            InFlight(pc') + AwakeAcquirers(pc') == InFlight(pc) + AwakeAcquirers(pc) + AttentionChange(s, a)
  {
    assert PcInv(s, s.pcs[a.t]);
  }

  lemma StepAttention(s: Semaphore, a: Action)
    requires Inv(s) && Enabled(s, a)
    ensures Attention(Do(s, a)) == Attention(s) + AttentionChange(s, a)
  {
    if a.Signal? {
      SignalTotals(s, a);
    } else {
      var pc' := Do(s, a).pcs[a.t];
      OwnMove(s, a);
      TotalUpdate(s.pcs, a.t, pc', InFlight);
      TotalUpdate(s.pcs, a.t, pc', AwakeAcquirers);
    }
  }

  lemma StepSleepers(s: Semaphore, a: Action)
    requires Inv(s) && Enabled(s, a)
    ensures a.Decide? && AttentionChange(s, a) < 0 ==> Total(s.pcs, Sleepers) == 0
    ensures Total(Do(s, a).pcs, Sleepers) == Total(s.pcs, Sleepers)
              + (if a.Signal? then -|a.woken| else if a.Arbitrate? && s.current < s.pcs[a.t].count then 1 else 0)
  {
    if a.Signal? {
      SignalTotals(s, a);
    } else {
      MoveTotals(s.pcs, a.t, Do(s, a).pcs[a.t]);
    }
  }

  lemma Room(k: int, n: nat, n': nat, x: int, x': int)
    requires k > 0
    requires || (x < k * (n + 1) && n <= n' && x' <= x + (n' - n))
             || (x < k * (n + 1) && n' == n - 1 && x' == x - k)
             || x' < k
    ensures x' < k * (n' + 1)
  {
    if x' < k {
      assert k * (n' + 1) == k * n' + k;
    } else if n' == n - 1 {
      assert k * (n + 1) == k * (n' + 1) + k;
    } else {
      var d := n' - n;
      assert k * (n' + 1) == k * (n + 1) + k * d;
      assert k * d >= d;
    }
  }

  lemma StepAttended(s: Semaphore, a: Action, k: int)
    requires Inv(s) && s.counts == {k} && Attended(s, k) && Enabled(s, a)
    ensures Attended(Do(s, a), k)
  {
    StepAttention(s, a);
    StepSleepers(s, a);
    assert PcInv(s, s.pcs[a.t]);
    if Total(Do(s, a).pcs, Sleepers) > 0 {
      Room(k, Attention(s), Attention(Do(s, a)), s.current, Do(s, a).current);
    }
  }

  ghost predicate FullInv(s: Semaphore) {
    Inv(s) && forall k :: s.counts == {k} ==> Attended(s, k)
  }

  lemma InitInv(s: Semaphore)
    requires Init(s)
    ensures FullInv(s)
  {
    TotalZero(s.pcs, Sleepers);
    TotalZero(s.pcs, Tallied);
  }

  lemma ReachableInv(s: Semaphore)
    requires Reachable(Init, Next, s)
    ensures FullInv(s)
  {
    forall s | Init(s) ensures FullInv(s) { InitInv(s); }
    forall s, s' | FullInv(s) && Next(s, s') ensures FullInv(s') {
      var a :| Enabled(s, a) && s' == Do(s, a);
      StepInv(s, a);
      forall k | s'.counts == {k} ensures Attended(s', k) {
        StepAttended(s, a, k);
      }
    }
    Invariance(Init, Next, FullInv, s);
  }

  /** The count stays within bounds, no more is ever acquired than was there or released,
      and the 16-bit tally is the number of threads between its two updates. */
  lemma CountAndTally(s: Semaphore)
    requires Reachable(Init, Next, s)
    ensures 0 <= s.current <= s.max
    ensures s.acquired <= s.initial + s.released - s.current
    ensures s.tally == Total(s.pcs, Tallied)
  {
    ReachableInv(s);
  }

  /** A 16-bit store keeps the number up to a multiple of 65536. */
  lemma Wrap16Means(x: int)
    ensures -32768 <= Wrap16(x) <= 32767 && (x - Wrap16(x)) % 65536 == 0
    ensures -32768 <= x <= 32767 ==> Wrap16(x) == x
  {
  }

  // What the calls do to the count.

  /** As long as nothing released was beyond the maximum, every unit is accounted for. */
  ghost predicate Exact(s: Semaphore) {
    s.acquired >= 0 && (s.initial + s.released <= s.max ==> s.acquired + s.current == s.initial + s.released)
  }

  lemma StepExact(s: Semaphore, a: Action)
    requires Inv(s) && Exact(s) && Enabled(s, a)
    ensures Exact(Do(s, a))
  {
    assert PcInv(s, s.pcs[a.t]);
  }

  lemma {:induction false} NothingIsLost(trace: seq<Semaphore>, k: nat)
    requires IsTrace(Init, Next, trace) && k < |trace|
    ensures Exact(trace[k])
  {
    if k > 0 {
      NothingIsLost(trace, k - 1);
      PrefixReachable(Init, Next, trace, k - 1);
      ReachableInv(trace[k - 1]);
      assert StepAt(Next, trace, k - 1);
      var s, s' := trace[k - 1], trace[k];
      var a :| Enabled(s, a) && s' == Do(s, a);
      StepExact(s, a);
    }
  }

  /** A Release brings the count to the lesser of the sum and the maximum. */
  lemma ReleaseAdds(s: Semaphore, t: nat, count: int)
    requires Reachable(Init, Next, s) && Enabled(s, Release(t, count))
    ensures var after := Do(s, Release(t, count)).current;
            after <= s.current + count && after <= s.max && (after == s.current + count || after == s.max)
  {
    ReachableInv(s);
  }

  /** A TryAcquire takes its count if that much is there, and nothing otherwise. */
  lemma TryAcquireTakes(s: Semaphore, t: nat, count: int)
    requires Enabled(s, TryAcquire(t, count))
    ensures var s' := Do(s, TryAcquire(t, count));
            if s.current < count then s' == s
            else s'.current == s.current - count && s'.acquired == s.acquired + count && s'.pcs == s.pcs
  {
  }

  /** A signal for `count` wakes that many sleepers, or all of them. */
  lemma SignalWakes(s: Semaphore, t: nat, woken: seq<nat>)
    requires Reachable(Init, Next, s) && Enabled(s, Signal(t, woken))
    ensures var before, after := Total(s.pcs, Sleepers), Total(Do(s, Signal(t, woken)).pcs, Sleepers);
            after == if s.pcs[t].count <= before then before - s.pcs[t].count else 0
  {
    ReachableInv(s);
    SignalTotals(s, Signal(t, woken));
  }

  predicate Acquiring(s: Semaphore, t: nat, count: int) {
    t < |s.pcs| && s.pcs[t] in {Trying(count), ToTally(count), ToWait(count), Asleep(count), ToUntally(count)}
  }

  ghost predicate Took(s: Semaphore, s': Semaphore, t: nat, count: int) {
    && t < |s'.pcs| && s'.pcs[t] == Idle
    && s.current >= count && s'.current == s.current - count && s'.acquired == s.acquired + count
  }

  lemma AcquiringStep(s: Semaphore, a: Action, t: nat, count: int)
    requires Enabled(s, a) && Acquiring(s, t, count)
    ensures Acquiring(Do(s, a), t, count) || Took(s, Do(s, a), t, count)
  {
    if a.Signal? {
      WakeTotals(s.pcs, a.woken);
    }
  }

  lemma AcquiringNext(trace: seq<Semaphore>, k: nat, t: nat, count: int)
    requires IsTrace(Init, Next, trace) && k + 1 < |trace| && Acquiring(trace[k], t, count)
    ensures Acquiring(trace[k + 1], t, count) || Took(trace[k], trace[k + 1], t, count)
  {
    assert StepAt(Next, trace, k);
    var s, s' := trace[k], trace[k + 1];
    var a :| Enabled(s, a) && s' == Do(s, a);
    AcquiringStep(s, a, t, count);
  }

  lemma {:induction false} AcquiringUntil(trace: seq<Semaphore>, i: nat, k: nat, t: nat, count: int)
    requires IsTrace(Init, Next, trace) && i <= k < |trace| && Acquiring(trace[i], t, count)
    requires forall m :: i < m <= k ==> t < |trace[m].pcs| && trace[m].pcs[t] != Idle
    ensures Acquiring(trace[k], t, count)
  {
    if i < k {
      AcquiringUntil(trace, i, k - 1, t, count);
      AcquiringNext(trace, k - 1, t, count);
      assert trace[k].pcs[t] != Idle;
    }
  }

  /** Whatever happens meanwhile, an Acquire returns by taking its count in the one step that
      ends it. */
  lemma AcquireTakes(trace: seq<Semaphore>, i: nat, j: nat, t: nat, count: int)
    requires IsTrace(Init, Next, trace) && i < j < |trace| - 1
    requires Enabled(trace[i], Acquire(t, count)) && trace[i + 1] == Do(trace[i], Acquire(t, count))
    requires forall m :: i < m <= j ==> t < |trace[m].pcs| && trace[m].pcs[t] != Idle
    requires t < |trace[j + 1].pcs| && trace[j + 1].pcs[t] == Idle
    ensures trace[j].current >= count
    ensures trace[j + 1].current == trace[j].current - count && trace[j + 1].acquired == trace[j].acquired + count
  {
    assert Acquiring(trace[i + 1], t, count);
    AcquiringUntil(trace, i + 1, j, t, count);
    AcquiringNext(trace, j, t, count);
  }

  /** Where an Acquire can be after k steps with nobody else stepping. */
  predicate AloneAt(s: Semaphore, start: Semaphore, t: nat, count: int, k: nat) {
    && s.current == start.current && t < |s.pcs|
    && match s.pcs[t]
       case Trying(c) => c == count && k == 0
       case ToTally(c) => c == count && k == 1 && start.current < count
       case ToWait(c) => c == count && k == 2 && start.current < count
       case Asleep(c) => c == count && k == 3 && start.current < count
       case _ => false
  }

  ghost predicate OwnAt(trace: seq<Semaphore>, k: nat, t: nat)
    requires k + 1 < |trace|
  {
    exists a: Action :: a.t == t && Enabled(trace[k], a) && trace[k + 1] == Do(trace[k], a)
  }

  lemma AloneStep(s: Semaphore, a: Action, start: Semaphore, t: nat, count: int, k: nat)
    requires Enabled(s, a) && a.t == t && AloneAt(s, start, t, count, k)
    ensures AloneAt(Do(s, a), start, t, count, k + 1)
            || (k == 0 && start.current >= count && Took(s, Do(s, a), t, count))
  {
  }

  lemma AloneNext(trace: seq<Semaphore>, i: nat, k: nat, t: nat, count: int)
    requires i <= k < |trace| - 1 && OwnAt(trace, k, t) && AloneAt(trace[k], trace[i], t, count, k - i)
    ensures AloneAt(trace[k + 1], trace[i], t, count, k + 1 - i) || TookAtOnce(trace, i, k + 1, t, count)
  {
    var s, s' := trace[k], trace[k + 1];
    var a: Action :| a.t == t && Enabled(s, a) && s' == Do(s, a);
    AloneStep(s, a, trace[i], t, count, k - i);
  }

  ghost predicate TookAtOnce(trace: seq<Semaphore>, i: nat, k: nat, t: nat, count: int)
    requires i < |trace| && k < |trace|
  {
    k == i + 1 && trace[i].current >= count && Took(trace[i], trace[k], t, count)
  }

  lemma {:induction false} AloneUntil(trace: seq<Semaphore>, i: nat, k: nat, t: nat, count: int)
    requires i <= k < |trace| && AloneAt(trace[i], trace[i], t, count, 0)
    requires forall m :: i <= m < k ==> t < |trace[m].pcs| && trace[m].pcs[t] != Idle
    requires forall m :: i <= m < k ==> OwnAt(trace, m, t)
    ensures AloneAt(trace[k], trace[i], t, count, k - i) || TookAtOnce(trace, i, k, t, count)
  {
    if i < k {
      AloneUntil(trace, i, k - 1, t, count);
      assert OwnAt(trace, k - 1, t);
      AloneNext(trace, i, k - 1, t, count);
    }
  }

  /** With nobody else stepping, an Acquire called on enough takes it in its first step, and one
      called on too little takes nothing and is asleep after three. */
  lemma AcquireAlone(trace: seq<Semaphore>, i: nat, k: nat, t: nat, count: int)
    requires i + 1 < k < |trace|
    requires Enabled(trace[i], Acquire(t, count)) && trace[i + 1] == Do(trace[i], Acquire(t, count))
    requires forall m :: i < m < k ==> t < |trace[m].pcs| && trace[m].pcs[t] != Idle
    requires forall m :: i < m < k ==> OwnAt(trace, m, t)
    ensures t < |trace[k].pcs|
    ensures trace[i].current >= count ==>
              k == i + 2 && trace[k].pcs[t] == Idle && trace[k].current == trace[i].current - count
    ensures trace[i].current < count ==> k <= i + 4 && trace[k].current == trace[i].current
    ensures trace[i].current < count && k == i + 4 ==> trace[k].pcs[t] == Asleep(count)
  {
    AloneUntil(trace, i + 1, k, t, count);
  }

  // When Release signals.

  ghost predicate Signals(s: Semaphore, s': Semaphore, t: nat, count: int) {
    && t < |s.pcs| && s.pcs[t] == ToSignal(count)
    && exists woken :: Enabled(s, Signal(t, woken)) && s' == Do(s, Signal(t, woken))
  }

  /** In a Release called on a count of `before`, with or without the decision to signal. */
  predicate Releasing(s: Semaphore, t: nat, count: int, before: int, decided: bool) {
    t < |s.pcs| && s.pcs[t] == if decided then ToSignal(count) else Stored(count, before)
  }

  lemma DecideStep(s: Semaphore, a: Action, t: nat, count: int, before: int)
    requires Enabled(s, a) && Releasing(s, t, count, before, false)
    ensures var s' := Do(s, a);
            || Releasing(s', t, count, before, false)
            || (t < |s'.pcs| && s'.pcs[t] == if before <= 0 || s.tally > 0 then ToSignal(count) else Idle)
  {
    if a.Signal? { WakeTotals(s.pcs, a.woken); }
  }

  lemma SignalStep(s: Semaphore, a: Action, t: nat, count: int, before: int)
    requires Enabled(s, a) && Releasing(s, t, count, before, true)
    ensures Releasing(Do(s, a), t, count, before, true) || (a.t == t && Signals(s, Do(s, a), t, count))
  {
    if a.Signal? {
      WakeTotals(s.pcs, a.woken);
    }
  }

  lemma ReleasingNext(trace: seq<Semaphore>, k: nat, t: nat, count: int, before: int, decided: bool)
    requires IsTrace(Init, Next, trace) && k + 1 < |trace| && Releasing(trace[k], t, count, before, decided)
    ensures t < |trace[k + 1].pcs|
    ensures decided ==> Releasing(trace[k + 1], t, count, before, true) || Signals(trace[k], trace[k + 1], t, count)
    ensures !decided ==>
              || Releasing(trace[k + 1], t, count, before, false)
              || trace[k + 1].pcs[t] == if before <= 0 || trace[k].tally > 0 then ToSignal(count) else Idle
  {
    assert StepAt(Next, trace, k);
    var s, s' := trace[k], trace[k + 1];
    var a :| Enabled(s, a) && s' == Do(s, a);
    if decided { SignalStep(s, a, t, count, before); } else { DecideStep(s, a, t, count, before); }
  }

  lemma {:induction false} ReleasingUntil(trace: seq<Semaphore>, i: nat, k: nat, t: nat, count: int, before: int)
    returns (decided: bool)
    requires IsTrace(Init, Next, trace) && i <= k < |trace| && Releasing(trace[i], t, count, before, false)
    requires forall m :: i < m <= k ==> t < |trace[m].pcs| && trace[m].pcs[t] != Idle
    ensures Releasing(trace[k], t, count, before, decided)
    ensures decided ==> before <= 0 || exists m :: i <= m < k && trace[m].tally > 0
  {
    decided := false;
    if i < k {
      decided := ReleasingUntil(trace, i, k - 1, t, count, before);
      ReleasingNext(trace, k - 1, t, count, before, decided);
      assert trace[k].pcs[t] != Idle;
      if !decided && !Releasing(trace[k], t, count, before, false) {
        decided := true;
      }
    }
  }

  /** Release ends with a signal if it was called on an empty semaphore or there was a thread in
      the tally all along; it sends none if neither was so at any time. */
  lemma ReleaseSignals(trace: seq<Semaphore>, i: nat, j: nat, t: nat, count: int)
    requires IsTrace(Init, Next, trace) && i < j < |trace| - 1
    requires Enabled(trace[i], Release(t, count)) && trace[i + 1] == Do(trace[i], Release(t, count))
    requires forall m :: i < m <= j ==> t < |trace[m].pcs| && trace[m].pcs[t] != Idle
    requires t < |trace[j + 1].pcs| && trace[j + 1].pcs[t] == Idle
    ensures trace[i].current <= 0 || (forall m :: i < m <= j ==> trace[m].tally > 0) ==>
              Signals(trace[j], trace[j + 1], t, count)
    ensures trace[i].current > 0 && (forall m :: i < m <= j ==> trace[m].tally <= 0) ==>
              !Signals(trace[j], trace[j + 1], t, count)
  {
    var decided := ReleasingUntil(trace, i + 1, j, t, count, trace[i].current);
    ReleasingNext(trace, j, t, count, trace[i].current, decided);
  }

  /** When every Acquire asks for k, sleepers mean that what is there is less than k for each
      releaser's outstanding signal, each awake acquirer, and one more. */
  lemma NoLostWakeup(s: Semaphore, k: int, sleeper: nat)
    requires Reachable(Init, Next, s) && s.counts == {k}
    requires sleeper < |s.pcs| && s.pcs[sleeper].Asleep?
    ensures s.current < k * (Attention(s) + 1)
    ensures k == 1 ==> s.current <= Total(s.pcs, InFlight) + Total(s.pcs, AwakeAcquirers)
  {
    ReachableInv(s);
    TotalAtLeast(s.pcs, sleeper, Sleepers);
    assert Attended(s, k);
  }

  /** A thread sleeps although the count would satisfy it, and nobody is left to wake it. */
  ghost predicate Stranded(s: Semaphore) {
    && (forall t :: 0 <= t < |s.pcs| ==> s.pcs[t].Idle? || s.pcs[t].Asleep?)
    && exists t :: 0 <= t < |s.pcs| && s.pcs[t].Asleep? && s.pcs[t].count <= s.current
  }

  /** Two different counts in use, the smaller of which the semaphore can hold. */
  ghost predicate MixedCounts(counts: set<int>, max: int) {
    exists j, k :: j in counts && k in counts && j < k && j <= max
  }

  ghost predicate CanStrand(counts: set<int>, max: int) {
    exists s :: Reachable(Init, Next, s) && s.counts == counts && s.max == max && Stranded(s)
  }

  lemma UnmixedNeverStrands(s: Semaphore)
    requires Reachable(Init, Next, s)
    requires !MixedCounts(s.counts, s.max)
    ensures !Stranded(s)
  {
    ReachableInv(s);
    if Stranded(s) {
      var t :| 0 <= t < |s.pcs| && s.pcs[t].Asleep? && s.pcs[t].count <= s.current;
      var c := s.pcs[t].count;
      assert PcInv(s, s.pcs[t]);
      forall k | k in s.counts ensures k == c { }
      assert s.counts == {c};
      TotalAtLeast(s.pcs, t, Sleepers);
      TotalZero(s.pcs, InFlight);
      TotalZero(s.pcs, AwakeAcquirers);
      assert false;
    }
  }

  // How two counts j < k strand the thread that asks for j: thread 0 sleeps for k, thread 1
  // for j, and thread 2 releases one at a time, each signal waking thread 0 in vain.

  ghost function Waiting(counts: set<int>, max: int, j: int, k: int, m: nat): Semaphore {
    Semaphore(m, 2, max, [Asleep(k), Asleep(j), Idle], counts, 0, 0, m)
  }

  lemma Advance(s: Semaphore, a: Action)
    requires Reachable(Init, Next, s) && Enabled(s, a)
    ensures Reachable(Init, Next, Do(s, a))
  {
    StepReachable(Init, Next, s, Do(s, a));
  }

  lemma TryAndSleep(s: Semaphore, t: nat, c: int)
    requires Reachable(Init, Next, s)
    requires t < |s.pcs| && s.pcs[t] == Trying(c) && s.current < c && 0 <= s.tally < S16_MAX
    ensures Reachable(Init, Next, s.(tally := s.tally + 1, pcs := s.pcs[t := Asleep(c)]))
  {
    var s2 := Do(s, Try(t));
    Advance(s, Try(t));
    var s3 := Do(s2, Tally(t));
    Advance(s2, Tally(t));
    var s4 := Do(s3, Arbitrate(t));
    Advance(s3, Arbitrate(t));
    assert s4.pcs == s.pcs[t := Asleep(c)];
    assert s4 == s.(tally := s.tally + 1, pcs := s.pcs[t := Asleep(c)]);
  }

  lemma FallAsleep(s: Semaphore, t: nat, c: int)
    requires Reachable(Init, Next, s)
    requires t < |s.pcs| && s.pcs[t] == Idle && c in s.counts && s.current < c && 0 <= s.tally < S16_MAX
    ensures Reachable(Init, Next, s.(tally := s.tally + 1, pcs := s.pcs[t := Asleep(c)]))
  {
    var s' := Do(s, Acquire(t, c));
    Advance(s, Acquire(t, c));
    TryAndSleep(s', t, c);
    assert s'.pcs[t := Asleep(c)] == s.pcs[t := Asleep(c)];
  }

  /** One release of 1, signalled to thread 0. */
  lemma ReleaseWakingFirst(s: Semaphore, j: int, k: int)
    requires Reachable(Init, Next, s)
    requires s.pcs == [Asleep(k), Asleep(j), Idle] && s.tally == 2 && s.current + 1 <= s.max
    ensures Reachable(Init, Next,
              s.(current := s.current + 1, released := s.released + 1, pcs := [ToUntally(k), Asleep(j), Idle]))
  {
    var s1 := Do(s, Release(2, 1));
    Advance(s, Release(2, 1));
    assert s1.pcs == [Asleep(k), Asleep(j), Stored(1, s.current)];
    var s2 := Do(s1, Decide(2));
    Advance(s1, Decide(2));
    assert s2.pcs == [Asleep(k), Asleep(j), ToSignal(1)];
    WakeFirst(s2, j, k);
  }

  lemma WakeFirst(s: Semaphore, j: int, k: int)
    requires Reachable(Init, Next, s)
    requires s.pcs == [Asleep(k), Asleep(j), ToSignal(1)]
    ensures Reachable(Init, Next, s.(pcs := [ToUntally(k), Asleep(j), Idle]))
  {
    TotalAtLeast(s.pcs, 0, Sleepers);
    var woken: seq<nat> := [0];
    var rest := s.pcs[0 := ToUntally(k)];
    assert woken[1..] == [];
    assert CanWake(rest, []) && WakeAll(rest, []) == rest;
    assert CanWake(s.pcs, woken) && WakeAll(s.pcs, woken) == rest;
    assert Enabled(s, Signal(2, woken));
    Advance(s, Signal(2, woken));
    assert rest[2 := Idle] == [ToUntally(k), Asleep(j), Idle];
  }

  lemma {:induction false} WaitingReachable(counts: set<int>, max: int, j: int, k: int, m: nat)
    requires forall c :: c in counts ==> c > 0
    requires j in counts && k in counts && j < k && m <= j <= max <= S16_MAX
    ensures Reachable(Init, Next, Waiting(counts, max, j, k, m))
  {
    if m == 0 {
      var s := Semaphore(0, 0, max, [Idle, Idle, Idle], counts, 0, 0, 0);
      InitReachable(Init, Next, s);
      FallAsleep(s, 0, k);
      var s1 := s.(tally := 1, pcs := s.pcs[0 := Asleep(k)]);
      FallAsleep(s1, 1, j);
      assert s1.pcs[1 := Asleep(j)] == [Asleep(k), Asleep(j), Idle];
    } else {
      WaitingReachable(counts, max, j, k, m - 1);
      WastedSignal(counts, max, j, k, m - 1);
    }
  }

  lemma WastedSignal(counts: set<int>, max: int, j: int, k: int, m: nat)
    requires Reachable(Init, Next, Waiting(counts, max, j, k, m))
    requires k in counts && m < j < k && j <= max <= S16_MAX
    ensures Reachable(Init, Next, Waiting(counts, max, j, k, m + 1))
  {
    var s := Waiting(counts, max, j, k, m);
    ReleaseWakingFirst(s, j, k);
    var s1 := s.(current := m + 1, released := m + 1, pcs := [ToUntally(k), Asleep(j), Idle]);
    var s2 := Do(s1, Untally(0));
    Advance(s1, Untally(0));
    TryAndSleep(s2, 0, k);
    assert s2.pcs[0 := Asleep(k)] == [Asleep(k), Asleep(j), Idle];
    assert s2.(tally := 2, pcs := s2.pcs[0 := Asleep(k)]) == Waiting(counts, max, j, k, m + 1);
  }

  /** Exactly when a wakeup can be lost: if and only if two different counts are in use, the
      smaller of which the semaphore can hold. */
  lemma StrandingExactly(counts: set<int>, max: int)
    requires forall c :: c in counts ==> c > 0
    requires 0 <= max <= S16_MAX
    ensures CanStrand(counts, max) <==> MixedCounts(counts, max)
  {
    if MixedCounts(counts, max) {
      var j, k :| j in counts && k in counts && j < k && j <= max;
      WaitingReachable(counts, max, j, k, j);
      var s := Waiting(counts, max, j, k, j);
      assert s.pcs[1].Asleep? && s.pcs[1].count <= s.current;
      assert Stranded(s);
    }
    if CanStrand(counts, max) {
      var s :| Reachable(Init, Next, s) && s.counts == counts && s.max == max && Stranded(s);
      if !MixedCounts(counts, max) {
        UnmixedNeverStrands(s);
      }
    }
  }
}
