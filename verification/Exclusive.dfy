/** The load-exclusive / store-exclusive retry loops, as loops. Other threads run between any
    two accesses, on a schedule the loop does not control; each loop is shown to act on its
    word like one atomic update, made on the value the word has at that instant. This is what
    lets the transition systems take a whole loop as one action. */
module Exclusive {
  import LightLock
  import LightSemaphore
  import LightEvent

  /** What the rest of the system does while this thread is preempted: store these values, and
      perhaps lose the reservation for no visible reason. */
  datatype Turn = Turn(stores: seq<int>, spurious: bool)

  type Schedule = seq<Turn>

  function Stores(turns: Schedule): seq<int> {
    if turns == [] then [] else Stores(turns[..|turns| - 1]) + turns[|turns| - 1].stores
  }

  function Last(log: seq<int>): int
    requires log != []
  {
    log[|log| - 1]
  }

  ghost function Seen(before: seq<int>, env: Schedule, k: nat): seq<int>
    requires k <= |env|
  {
    before + Stores(env[..k])
  }

  /** The others' first k turns, then one store of f of the value then in the word. */
  ghost predicate UpdatedOnce(before: seq<int>, env: Schedule, k: nat, after: seq<int>, f: int -> int) {
    && before != [] && k <= |env|
    && after == Seen(before, env, k) + [f(Last(Seen(before, env, k)))]
  }

  /** The others' first k turns and nothing else. */
  ghost predicate Untouched(before: seq<int>, env: Schedule, k: nat, after: seq<int>) {
    before != [] && k <= |env| && after == Seen(before, env, k)
  }

  /** A word in memory with this thread's exclusive reservation on it. */
  class Word {
    var value: int
    var reserved: bool
    ghost var log: seq<int>  // every value stored so far, oldest first

    ghost predicate Valid()
      reads this
    {
      log != [] && Last(log) == value
    }

    constructor (initial: int)
      ensures Valid() && value == initial && log == [initial]
    {
      value := initial;
      reserved := false;
      log := [initial];
    }

    method LoadExclusive() returns (loaded: int)
      requires Valid()
      modifies this`reserved
      ensures loaded == value && reserved
    {
      loaded := value;
      reserved := true;
    }

    method StoreExclusive(x: int) returns (failed: bool)
      requires Valid()
      modifies this
      ensures Valid() && !reserved
      ensures failed == !old(reserved)
      ensures log == if failed then old(log) else old(log) + [x]
    {
      failed := !reserved;
      if reserved {
        value := x;
        log := log + [x];
      }
      reserved := false;
    }

    method ClearExclusive()
      modifies this`reserved
      ensures !reserved
    {
      reserved := false;
    }

    /** One turn of the schedule, if there is one left. */
    method Preempted(env: Schedule, i: nat, ghost before: seq<int>) returns (j: nat)
      requires Valid() && i <= |env| && log == Seen(before, env, i)
      modifies this
      ensures Valid() && i <= j <= |env| && log == Seen(before, env, j)
      ensures i < |env| ==> j == i + 1
      ensures i == |env| ==> reserved == old(reserved)
      ensures reserved ==> old(reserved) && value == old(value)
    {
      j := i;
      if i < |env| {
        var stores := env[i].stores;
        if stores != [] {
          value := stores[|stores| - 1];
          reserved := false;
        }
        log := log + stores;
        reserved := reserved && !env[i].spurious;
        j := i + 1;
        assert env[..j][..|env[..j]| - 1] == env[..i];
        assert before + (Stores(env[..i]) + stores) == before + Stores(env[..i]) + stores;
      }
    }

    /** A store-exclusive of x, after one more turn of the schedule. */
    method TryStore(x: int, env: Schedule, i: nat, ghost before: seq<int>) returns (failed: bool, j: nat)
      requires Valid() && reserved && i <= |env| && log == Seen(before, env, i)
      modifies this
      ensures Valid() && i <= j <= |env| && (failed ==> i < j)
      ensures failed ==> log == Seen(before, env, j)
      ensures !failed ==> Seen(before, env, j) != [] && Last(Seen(before, env, j)) == old(value)
                          && log == Seen(before, env, j) + [x] && value == x
    {
      j := Preempted(env, i, before);
      failed := StoreExclusive(x);
    }
  }

  /** LightLock_Lock's first loop. */
  method LockEnter(lock: Word, env: Schedule) returns (alreadyLocked: bool, k: nat)
    requires lock.Valid()
    modifies lock
    ensures lock.Valid() && UpdatedOnce(old(lock.log), env, k, lock.log, LightLock.EnterWord)
    ensures alreadyLocked == (Last(Seen(old(lock.log), env, k)) < 0)
  {
    k := 0;
    alreadyLocked := false;
    var failed := true;
    while failed
      invariant lock.Valid() && k <= |env|
      invariant failed ==> lock.log == Seen(old(lock.log), env, k)
      invariant !failed ==> UpdatedOnce(old(lock.log), env, k, lock.log, LightLock.EnterWord)
                            && alreadyLocked == (Last(Seen(old(lock.log), env, k)) < 0)
      decreases |env| - k, failed
    {
      var val := lock.LoadExclusive();
      ghost var loaded := val;
      if val == 0 { val := 1; }
      alreadyLocked := val < 0;
      val := if alreadyLocked then val - 1 else -val;
      assert val == LightLock.EnterWord(loaded) && alreadyLocked == (loaded < 0);
      failed, k := lock.TryStore(val, env, k, old(lock.log));
    }
  }

  /** LightLock_Lock's second loop, which gives up when the lock is still held. */
  method LockRetry(lock: Word, env: Schedule) returns (alreadyLocked: bool, k: nat)
    requires lock.Valid()
    modifies lock
    ensures lock.Valid()
    ensures !alreadyLocked ==> UpdatedOnce(old(lock.log), env, k, lock.log, LightLock.RetryWord)
                               && Last(Seen(old(lock.log), env, k)) >= 0
    ensures alreadyLocked ==> Untouched(old(lock.log), env, k, lock.log) && lock.value < 0
  {
    k := 0;
    alreadyLocked := false;
    var failed := true;
    while failed
      invariant lock.Valid() && k <= |env|
      invariant failed ==> lock.log == Seen(old(lock.log), env, k)
      invariant !failed ==> UpdatedOnce(old(lock.log), env, k, lock.log, LightLock.RetryWord)
                            && Last(Seen(old(lock.log), env, k)) >= 0 && !alreadyLocked
      decreases |env| - k, failed
    {
      var val := lock.LoadExclusive();
      alreadyLocked := val < 0;
      if alreadyLocked {
        lock.ClearExclusive();
        return;
      }
      val := -(val - 1);
      failed, k := lock.TryStore(val, env, k, old(lock.log));
    }
  }

  /** LightLock_TryLock. */
  method TryLock(lock: Word, env: Schedule) returns (result: int, k: nat)
    requires lock.Valid()
    modifies lock
    ensures lock.Valid() && (result == 0 || result == 1)
    ensures result == 0 ==> UpdatedOnce(old(lock.log), env, k, lock.log, LightLock.TryLockWord)
                            && Last(Seen(old(lock.log), env, k)) >= 0
    ensures result == 1 ==> Untouched(old(lock.log), env, k, lock.log) && lock.value < 0
  {
    k := 0;
    var failed := true;
    while failed
      invariant lock.Valid() && k <= |env|
      invariant failed ==> lock.log == Seen(old(lock.log), env, k)
      invariant !failed ==> UpdatedOnce(old(lock.log), env, k, lock.log, LightLock.TryLockWord)
                            && Last(Seen(old(lock.log), env, k)) >= 0
      decreases |env| - k, failed
    {
      var val := lock.LoadExclusive();
      if val == 0 { val := 1; }
      if val < 0 {
        lock.ClearExclusive();
        return 1, k;
      }
      failed, k := lock.TryStore(-val, env, k, old(lock.log));
    }
    result := 0;
  }

  /** LightLock_Unlock, up to the decision to signal. */
  method Unlock(lock: Word, env: Schedule) returns (signal: bool, k: nat)
    requires lock.Valid()
    modifies lock
    ensures lock.Valid() && UpdatedOnce(old(lock.log), env, k, lock.log, LightLock.UnlockWord)
    ensures signal == (lock.value > 1)
  {
    k := 0;
    var val := 0;
    var failed := true;
    while failed
      invariant lock.Valid() && k <= |env|
      invariant failed ==> lock.log == Seen(old(lock.log), env, k)
      invariant !failed ==> UpdatedOnce(old(lock.log), env, k, lock.log, LightLock.UnlockWord)
                            && val == lock.value
      decreases |env| - k, failed
    {
      val := lock.LoadExclusive();
      val := -val;
      failed, k := lock.TryStore(val, env, k, old(lock.log));
    }
    signal := val > 1;
  }

  /** LightEvent_TryReset: takes a one-shot signal if there is one. */
  method TryReset(state: Word, env: Schedule) returns (taken: int, k: nat)
    requires state.Valid()
    modifies state
    ensures state.Valid() && (taken == 0 || taken == 1)
    ensures taken == 1 ==> UpdatedOnce(old(state.log), env, k, state.log, _ => LightEvent.CLEARED_ONESHOT)
                           && Last(Seen(old(state.log), env, k)) == LightEvent.SIGNALED_ONESHOT
    ensures taken == 0 ==> Untouched(old(state.log), env, k, state.log) && state.value != LightEvent.SIGNALED_ONESHOT
  {
    k := 0;
    var failed := true;
    ghost var cleared: int -> int := _ => LightEvent.CLEARED_ONESHOT;
    while failed
      invariant state.Valid() && k <= |env|
      invariant failed ==> state.log == Seen(old(state.log), env, k)
      invariant !failed ==> UpdatedOnce(old(state.log), env, k, state.log, cleared)
                            && Last(Seen(old(state.log), env, k)) == LightEvent.SIGNALED_ONESHOT
      decreases |env| - k, failed
    {
      var val := state.LoadExclusive();
      if val != 0 {
        state.ClearExclusive();
        return 0, k;
      }
      failed, k := state.TryStore(LightEvent.CLEARED_ONESHOT, env, k, old(state.log));
    }
    taken := 1;
  }

  /** The loop that takes from a semaphore, shared by TryAcquire and each attempt of Acquire. */
  method TakeCount(current: Word, count: int, env: Schedule) returns (tooFew: bool, k: nat)
    requires current.Valid()
    modifies current
    ensures current.Valid()
    ensures !tooFew ==> UpdatedOnce(old(current.log), env, k, current.log, x => x - count)
                        && Last(Seen(old(current.log), env, k)) >= count
    ensures tooFew ==> Untouched(old(current.log), env, k, current.log) && current.value < count
  {
    k := 0;
    var failed := true;
    ghost var take: int -> int := x => x - count;
    while failed
      invariant current.Valid() && k <= |env|
      invariant failed ==> current.log == Seen(old(current.log), env, k)
      invariant !failed ==> UpdatedOnce(old(current.log), env, k, current.log, take)
                            && Last(Seen(old(current.log), env, k)) >= count
      decreases |env| - k, failed
    {
      var before := current.LoadExclusive();
      if before < count {
        current.ClearExclusive();
        return true, k;
      }
      failed, k := current.TryStore(before - count, env, k, old(current.log));
    }
    tooFew := false;
  }

  /** LightSemaphore_Release's loop. */
  method ReleaseCount(current: Word, count: int, max: int, env: Schedule) returns (before: int, k: nat)
    requires current.Valid()
    modifies current
    ensures current.Valid()
    ensures UpdatedOnce(old(current.log), env, k, current.log, x => LightSemaphore.ReleasedCount(x, count, max))
    ensures before == Last(Seen(old(current.log), env, k))
  {
    k := 0;
    before := 0;
    var failed := true;
    ghost var release: int -> int := x => LightSemaphore.ReleasedCount(x, count, max);
    while failed
      invariant current.Valid() && k <= |env|
      invariant failed ==> current.log == Seen(old(current.log), env, k)
      invariant !failed ==> UpdatedOnce(old(current.log), env, k, current.log, release)
                            && before == Last(Seen(old(current.log), env, k))
      decreases |env| - k, failed
    {
      before := current.LoadExclusive();
      var after := before + count;
      if after >= max { after := max; }
      failed, k := current.TryStore(after, env, k, old(current.log));
    }
  }

  /** The two loops of LightSemaphore_Acquire around the sleep, which add 1 to the 16-bit tally
      and take it off again. */
  method ChangeTally(tally: Word, change: int, env: Schedule) returns (k: nat)
    requires tally.Valid()
    modifies tally
    ensures tally.Valid()
    ensures UpdatedOnce(old(tally.log), env, k, tally.log, x => LightSemaphore.Wrap16(x + change))
  {
    k := 0;
    var failed := true;
    ghost var changed: int -> int := x => LightSemaphore.Wrap16(x + change);
    while failed
      invariant tally.Valid() && k <= |env|
      invariant failed ==> tally.log == Seen(old(tally.log), env, k)
      invariant !failed ==> UpdatedOnce(old(tally.log), env, k, tally.log, changed)
      decreases |env| - k, failed
    {
      var numThreadsAcq := tally.LoadExclusive();
      failed, k := tally.TryStore(LightSemaphore.Wrap16(numThreadsAcq + change), env, k, old(tally.log));
    }
  }

  /** The loops of LightEvent_SetState and LightLock_Init, which store whatever was there. */
  method SetWord(word: Word, x: int, env: Schedule) returns (k: nat)
    requires word.Valid()
    modifies word
    ensures word.Valid() && UpdatedOnce(old(word.log), env, k, word.log, _ => x)
  {
    k := 0;
    var failed := true;
    ghost var stored: int -> int := _ => x;
    while failed
      invariant word.Valid() && k <= |env|
      invariant failed ==> word.log == Seen(old(word.log), env, k)
      invariant !failed ==> UpdatedOnce(old(word.log), env, k, word.log, stored)
      decreases |env| - k, failed
    {
      var ignored := word.LoadExclusive();
      failed, k := word.TryStore(x, env, k, old(word.log));
    }
  }
}
