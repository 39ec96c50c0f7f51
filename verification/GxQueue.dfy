/** The GX command queue: batches of commands fed to the GPU, at most three at a time, each
    completion interrupt making room for the next.

    A method call is one step of the system, although only part of it runs under the queue
    lock. All calls but Interrupt come from one thread, and what they touch outside the lock
    Interrupt leaves alone then: it returns at once while isRunning is false, which is when Run
    sets curQueue and isActive and when Clear may reset the current queue; the entry that Add
    copies lies behind numEntries, which only Add and Clear change; and isRunning is true
    before the first command is submitted, so that Interrupt does not read it too early. */
module GxQueue {
  import opened Arithmetic

  const MAX_PARALLEL_CMDS := 3

  datatype Event = PSC0 | PSC1 | VBlank0 | VBlank1 | PPF | P3D | DMA

  datatype Kind = RequestDma | CommandList | MemoryFill | DisplayTransfer | TextureCopy

  /** What is submitted to GSP: a kind of command and the words that go with it. */
  datatype Entry = Entry(kind: Kind, words: seq<bv32>)

  /** The event by which GSP reports a command of that kind complete. */
  function Report(kind: Kind): Event {
    match kind
    case RequestDma => DMA
    case CommandList => P3D
    case MemoryFill => PSC0
    case DisplayTransfer => PPF
    case TextureCopy => PPF
  }

  function Min(a: int, b: int): int {
    if a <= b then a else b
  }

  class CmdQueue {
    const maxEntries: nat
    const entries: array<Entry>
    var numEntries: nat
    var curEntry: nat
    var lastEntry: nat
    ghost var sent: seq<Entry>  // everything submitted from this queue since it was last cleared

    ghost predicate Valid()
      reads this, entries
    {
      && entries.Length == maxEntries
      && lastEntry <= curEntry <= numEntries <= maxEntries
      && curEntry - lastEntry <= 3
      && sent == entries[..curEntry]
    }

    constructor (maxEntries: nat, entries: array<Entry>)
      requires entries.Length == maxEntries
      ensures Valid() && numEntries == 0 && this.maxEntries == maxEntries && this.entries == entries
    {
      this.maxEntries, this.entries := maxEntries, entries;
      numEntries, curEntry, lastEntry, sent := 0, 0, 0, [];
    }
  }

  /** What can happen on GSP's side: it completes one of the commands it holds, whichever it
      picks, or reports the second fill unit or the start of a screen's blank. */
  datatype Arrival = Completion(pick: nat) | SecondFill | TopBlank | BottomBlank

  function Completions(arrivals: seq<Arrival>): nat {
    if arrivals == [] then 0
    else Completions(arrivals[..|arrivals| - 1]) + (if arrivals[|arrivals| - 1].Completion? then 1 else 0)
  }

  class Scheduler {
    var curQueue: CmdQueue?
    var isActive: bool
    var isRunning: bool
    var shouldStop: bool
    var held: seq<Entry>               // GSP's side: the commands in flight, submitted and not completed
    ghost var submitted: seq<Entry>    // every command ever submitted, in order

    /** A queue is current, and it runs exactly while it has commands submitted and not counted
        as completed. */
    ghost predicate Current()
      reads this, if curQueue != null then {curQueue, curQueue.entries} else {}
    {
      && curQueue != null && isActive && curQueue.Valid()
      && (isRunning <==> curQueue.lastEntry < curQueue.curEntry)
      && (!isRunning ==> curQueue.lastEntry == curQueue.numEntries)
    }

    ghost predicate Started()
      reads this, if curQueue != null then {curQueue, curQueue.entries} else {}
    {
      Current() && !shouldStop
    }

    /** How many commands GSP holds beyond those the current queue waits for. */
    ghost function Surplus(): int
      requires curQueue != null
      reads this, curQueue
    {
      |held| - (curQueue.curEntry - curQueue.lastEntry)
    }

    /** The commands in flight are those of the current queue between its two counters. */
    ghost predicate Inv()
      reads this, if curQueue != null then {curQueue, curQueue.entries} else {}
    {
      if curQueue == null then !isActive && !isRunning && !shouldStop && held == []
      else Started() && Surplus() == 0
    }

    /** A running queue has been asked to stop. */
    ghost predicate Stopping()
      reads this, if curQueue != null then {curQueue, curQueue.entries} else {}
    {
      Current() && Surplus() == 0 && shouldStop && isRunning
    }

    /** A stop has taken effect; commands may still be in flight. */
    ghost predicate Stopped()
      reads this
    {
      curQueue == null && !isActive && !isRunning && !shouldStop
    }

    constructor ()
      ensures Inv() && curQueue == null && submitted == []
    {
      curQueue := null;
      isActive, isRunning, shouldStop := false, false, false;
      held, submitted := [], [];
    }

    method SubmitGxCommand(q: CmdQueue, entry: Entry)
      modifies this`held, this`submitted, q`sent
      ensures held == old(held) + [entry]
      ensures submitted == old(submitted) + [entry] && q.sent == old(q.sent) + [entry]
    {
      held := held + [entry];
      submitted := submitted + [entry];
      q.sent := q.sent + [entry];
    }

    method DoCommands()
      requires curQueue != null && curQueue.Valid()
      modifies this`held, this`submitted, curQueue`curEntry, curQueue`sent
      ensures curQueue.Valid()
      ensures curQueue.curEntry == if shouldStop then old(curQueue.curEntry)
                                   else Min(curQueue.numEntries, curQueue.lastEntry + 3)
      ensures held == old(held) + curQueue.entries[old(curQueue.curEntry)..curQueue.curEntry]
      ensures submitted == old(submitted) + curQueue.entries[old(curQueue.curEntry)..curQueue.curEntry]
    {
      if shouldStop { return; }
      var batchSize := curQueue.lastEntry + MAX_PARALLEL_CMDS - curQueue.curEntry;
      while curQueue.curEntry < curQueue.numEntries && batchSize != 0
        invariant batchSize == curQueue.lastEntry + MAX_PARALLEL_CMDS - curQueue.curEntry >= 0
        invariant old(curQueue.curEntry) <= curQueue.curEntry && curQueue.Valid()
        invariant held == old(held) + curQueue.entries[old(curQueue.curEntry)..curQueue.curEntry]
        invariant submitted == old(submitted) + curQueue.entries[old(curQueue.curEntry)..curQueue.curEntry]
      {
        batchSize := batchSize - 1;
        var entry := curQueue.entries[curQueue.curEntry];
        curQueue.curEntry := curQueue.curEntry + 1;
        SubmitGxCommand(curQueue, entry);
      }
    }

    /** An interrupt from GSP, whatever it holds. PSC0, PPF, P3D and DMA count as a completion
        of the running queue, all others leave everything alone. Yields the queue whose callback
        is to be called, if it has just finished. */
    method Interrupt(irq: Event) returns (runCb: CmdQueue?)
      requires isRunning ==> Current()
      modifies this, curQueue
      ensures old(curQueue) != null ==> old(curQueue).numEntries == old(curQueue.numEntries)
      ensures irq == PSC1 || irq == VBlank0 || irq == VBlank1 || !old(isRunning) ==>
        runCb == null && unchanged(this) && (curQueue != null ==> unchanged(curQueue))
      ensures irq == PSC0 || irq == PPF || irq == P3D || irq == DMA ==>
        && (old(isRunning && shouldStop) ==>
              && runCb == null && Stopped() && submitted == old(submitted) && held == old(held)
              && Counted(old(curQueue), old(curQueue.lastEntry)) && old(curQueue).curEntry == old(curQueue.curEntry))
        && (old(isRunning && !shouldStop) ==>
              && Started() && curQueue == old(curQueue) && Counted(curQueue, old(curQueue.lastEntry))
              && curQueue.curEntry == Min(curQueue.numEntries, curQueue.lastEntry + 3)
              && submitted == old(submitted) + curQueue.entries[old(curQueue.curEntry)..curQueue.curEntry]
              && held == old(held) + curQueue.entries[old(curQueue.curEntry)..curQueue.curEntry]
              && (isRunning <==> curQueue.lastEntry < curQueue.numEntries)
              && runCb == if isRunning then null else curQueue)
    {
      runCb := null;
      if !isRunning || irq == PSC1 || irq == VBlank0 || irq == VBlank1 { return; }
      curQueue.lastEntry := curQueue.lastEntry + 1;
      if shouldStop {
        curQueue := null;
        isActive := false;
        isRunning := false;
        shouldStop := false;
      } else if curQueue.lastEntry < curQueue.numEntries {
        DoCommands();
      } else {
        runCb := curQueue;
        isRunning := false;
      }
    }

    /** One more of its entries has completed. */
    ghost predicate Counted(queue: CmdQueue, before: nat)
      reads queue, queue.entries
    {
      queue.Valid() && queue.lastEntry == before + 1
    }

    /** GSP completes one of the commands it holds and reports it by the event of its kind. */
    method Complete(pick: nat) returns (runCb: CmdQueue?)
      requires Inv() || Stopping() || Stopped() || Started()
      requires pick < |held|
      modifies this, curQueue
      ensures !old(isRunning) ==>
        && runCb == null && curQueue == old(curQueue) && !isRunning && shouldStop == old(shouldStop)
        && submitted == old(submitted) && (curQueue != null ==> unchanged(curQueue))
        && (old(Stopped()) ==> Stopped()) && (old(Started()) ==> Started())
        && |held| == old(|held|) - 1
      ensures old(isRunning && shouldStop) ==>
        && runCb == null && Stopped() && submitted == old(submitted) && |held| == old(|held|) - 1
        && Counted(old(curQueue), old(curQueue.lastEntry))
        && old(curQueue).curEntry == old(curQueue.curEntry) && old(curQueue).numEntries == old(curQueue.numEntries)
      ensures old(isRunning && !shouldStop) ==>
        && Started() && curQueue == old(curQueue) && curQueue.numEntries == old(curQueue.numEntries)
        && Counted(curQueue, old(curQueue.lastEntry))
        && curQueue.curEntry == Min(curQueue.numEntries, curQueue.lastEntry + 3)
        && submitted == old(submitted) + curQueue.entries[old(curQueue.curEntry)..curQueue.curEntry]
        && (isRunning <==> curQueue.lastEntry < curQueue.numEntries)
        && Surplus() == old(Surplus())
        && runCb == (if isRunning then null else curQueue)
      ensures old(Inv()) ==> Inv()
    {
      var entry := held[pick];
      held := held[..pick] + held[pick + 1..];
      runCb := Interrupt(Report(entry.kind));
    }

    method Clear(queue: CmdQueue) returns (panic: bool)
      requires (Inv() || Stopping() || Stopped()) && queue.Valid()
      modifies queue
      ensures queue.Valid() && (old(Inv()) ==> Inv()) && (old(Stopping()) ==> Stopping())
      ensures panic <==> queue == curQueue && isRunning
      ensures if panic then unchanged(queue) else queue.numEntries == queue.curEntry == queue.lastEntry == 0
    {
      if queue == curQueue && isRunning { return true; }
      queue.numEntries := 0;
      queue.curEntry := 0;
      queue.lastEntry := 0;
      queue.sent := [];
      return false;
    }

    method Add(queue: CmdQueue, entry: Entry) returns (panic: bool)
      requires (Inv() || Stopping() || Stopped()) && queue.Valid()
      requires curQueue != null && queue != curQueue ==> queue.entries != curQueue.entries
      modifies this, queue, queue.entries
      ensures queue.Valid() && curQueue == old(curQueue)
      ensures (old(Inv()) ==> Inv()) && (old(Stopping()) ==> Stopping()) && (old(Stopped()) ==> Stopped())
      ensures panic <==> old(queue.numEntries) == queue.maxEntries
      ensures panic ==>
        && submitted == old(submitted) && isRunning == old(isRunning)
        && unchanged(queue) && unchanged(queue.entries)
      ensures !panic ==>
        && queue.numEntries == old(queue.numEntries) + 1 && queue.lastEntry == old(queue.lastEntry)
        && queue.entries[..queue.numEntries] == old(queue.entries[..queue.numEntries]) + [entry]
        && if queue == curQueue && !old(isRunning)
           then isRunning && submitted == old(submitted) + [entry] && queue.curEntry == queue.numEntries
           else isRunning == old(isRunning) && submitted == old(submitted) && queue.curEntry == old(queue.curEntry)
    {
      if queue.numEntries == queue.maxEntries { return true; }
      queue.entries[queue.numEntries] := entry;
      queue.numEntries := queue.numEntries + 1;
      if queue == curQueue && isActive && !isRunning {
        isRunning := true;
        DoCommands();
      }
      return false;
    }

    /** Starts a queue. What GSP still held on the one side, and what the queue still counts as
        submitted on the other, make the surplus it starts with. */
    method Run(queue: CmdQueue)
      requires (Inv() || Stopping() || Stopped()) && queue.Valid()
      modifies this, queue
      ensures old(isRunning) ==>
        && curQueue == old(curQueue) && isRunning && shouldStop == old(shouldStop) && held == old(held)
        && submitted == old(submitted) && unchanged(queue)
        && (old(Inv()) ==> Inv()) && (old(Stopping()) ==> Stopping())
      ensures !old(isRunning) ==>
        && curQueue == queue && Started()
        && queue.lastEntry == old(queue.lastEntry) && queue.numEntries == old(queue.numEntries)
        && queue.curEntry == Min(queue.numEntries, queue.lastEntry + 3)
        && (isRunning <==> queue.lastEntry < queue.numEntries)
        && submitted == old(submitted) + queue.entries[old(queue.curEntry)..queue.curEntry]
        && Surplus() == old(|held|) - (old(queue.curEntry) - old(queue.lastEntry))
    {
      if isRunning { return; }
      curQueue := queue;
      isActive := true;
      if queue.lastEntry < queue.numEntries {
        isRunning := true;
        DoCommands();
      } else {
        isRunning := false;
      }
    }

    method Stop()
      requires Inv() || Stopping() || Stopped()
      modifies this
      ensures old(isRunning) ==> Stopping() && curQueue == old(curQueue)
      ensures !old(isRunning) ==> Stopped()
      ensures submitted == old(submitted) && held == old(held) && isRunning == old(isRunning)
    {
      if curQueue == null { return; }
      if !isRunning {
        curQueue := null;
        isActive := false;
      } else {
        shouldStop := true;
      }
    }

    /** The entries of the current queue not yet counted as completed. */
    ghost function Remaining(): int
      reads this, curQueue
    {
      if curQueue == null then 0 else curQueue.numEntries - curQueue.lastEntry
    }

    /** Since `base` was all that had been submitted, the current queue has submitted its entries
        from `from` on, in order. */
    ghost predicate SubmittedFrom(base: seq<Entry>, from: nat)
      reads this, if curQueue != null then {curQueue, curQueue.entries} else {}
    {
      curQueue != null && curQueue.Valid() ==>
        from <= curQueue.curEntry && submitted == base + curQueue.entries[from..curQueue.curEntry]
    }

    /** What arrives, one after the other. */
    method Deliver(arrivals: seq<Arrival>, ghost base: seq<Entry>, ghost from: nat)
      requires Inv() && SubmittedFrom(base, from)
      modifies this, curQueue
      ensures Inv() && SubmittedFrom(base, from) && curQueue == old(curQueue)
      ensures Remaining() == old(Remaining()) - Min(old(Remaining()), Completions(arrivals))
      ensures curQueue != null ==> curQueue.numEntries == old(curQueue.numEntries)
    {
      var i := 0;
      while i < |arrivals|
        invariant i <= |arrivals| && Inv() && SubmittedFrom(base, from) && curQueue == old(curQueue)
        invariant Remaining() == old(Remaining()) - Min(old(Remaining()), Completions(arrivals[..i]))
        invariant curQueue != null ==> curQueue.numEntries == old(curQueue.numEntries)
      {
        assert arrivals[..i + 1][..i] == arrivals[..i];
        One(arrivals[i], base, from);
        i := i + 1;
      }
      assert arrivals[..|arrivals|] == arrivals;
    }

    method One(arrival: Arrival, ghost base: seq<Entry>, ghost from: nat)
      requires Inv() && SubmittedFrom(base, from)
      modifies this, curQueue
      ensures Inv() && SubmittedFrom(base, from) && curQueue == old(curQueue)
      ensures Remaining() == old(Remaining()) - if arrival.Completion? then Min(old(Remaining()), 1) else 0
      ensures curQueue != null ==> curQueue.numEntries == old(curQueue.numEntries)
    {
      var runCb := null;
      match arrival {
        case Completion(pick) => if held != [] { OneCompletion(pick % |held|, base, from); }
        case SecondFill => runCb := Interrupt(PSC1);
        case TopBlank => runCb := Interrupt(VBlank0);
        case BottomBlank => runCb := Interrupt(VBlank1);
      }
    }

    method OneCompletion(pick: nat, ghost base: seq<Entry>, ghost from: nat)
      requires Inv() && SubmittedFrom(base, from) && pick < |held|
      modifies this, curQueue
      ensures Inv() && SubmittedFrom(base, from) && curQueue == old(curQueue)
      ensures Remaining() == old(Remaining()) - 1
      ensures curQueue != null && curQueue.numEntries == old(curQueue.numEntries)
    {
      ghost var before := curQueue.curEntry;
      var runCb := Complete(pick);
      assert curQueue.entries[from..before] + curQueue.entries[before..curQueue.curEntry]
          == curQueue.entries[from..curQueue.curEntry];
    }

    lemma RunsWhileRemaining()
      requires Inv()
      ensures isRunning <==> Remaining() > 0
      ensures !isRunning && curQueue != null ==>
                held == [] && curQueue.lastEntry == curQueue.curEntry == curQueue.numEntries
    {
    }

    /** gxCmdQueueWait, with the clock's readings and what arrives between them. It returns true
        after the first turn by which as many completions have arrived as the queue had entries
        left, and every entry has been submitted once, in order, and completed by then; it returns
        false at the first reading past the deadline before that, and never without a deadline. */
    method Wait(start: int, timeout: int, turns: seq<Turn>) returns (outcome: Outcome, k: nat)
      requires Inv()
      modifies this, curQueue
      ensures Inv() && curQueue == old(curQueue) && k <= |turns|
      ensures forall i :: 0 <= i < k ==> KeepsWaiting(start, timeout, turns, i, old(Remaining()))
      ensures outcome.Finished? <==> Arrived(turns, k) >= old(Remaining())
      ensures outcome.TimedOut? ==> k < |turns| && TimeUp(start, timeout, turns[k].tick)
      ensures timeout < 0 ==> !outcome.TimedOut?
      ensures outcome.Waiting? ==> k == |turns|
      ensures outcome.Finished? <==> !isRunning
      ensures outcome.Finished? && curQueue != null ==>
        && held == [] && curQueue.lastEntry == curQueue.curEntry == curQueue.numEntries == old(curQueue.numEntries)
        && curQueue.sent == curQueue.entries[..curQueue.numEntries]
        && submitted == old(submitted) + curQueue.entries[old(curQueue.curEntry)..curQueue.numEntries]
    {
      var deadline := U64 - 1;
      if timeout >= 0 { deadline := (start + timeout) % U64; }
      k := 0;
      ghost var from := if curQueue == null then 0 else curQueue.curEntry;
      ghost var total, left := Remaining(), Remaining();
      RunsWhileRemaining();
      while isRunning
        invariant k <= |turns| && Inv() && SubmittedFrom(old(submitted), from) && curQueue == old(curQueue)
        invariant left == Remaining() && (isRunning <==> left > 0) && left == total - Min(total, Arrived(turns, k))
        invariant forall i :: 0 <= i < k ==> KeepsWaiting(start, timeout, turns, i, total)
        invariant curQueue != null ==> curQueue.numEntries == old(curQueue.numEntries)
        decreases |turns| - k
      {
        if k == |turns| { return Waiting, k; }
        if timeout >= 0 && Past(deadline, turns[k].tick) { return TimedOut, k; }
        assert KeepsWaiting(start, timeout, turns, k, total);
        Deliver(turns[k].arrivals, old(submitted), from);
        ArrivedNext(turns, k);
        RunsWhileRemaining();
        k, left := k + 1, Remaining();
      }
      RunsWhileRemaining();
      outcome := Finished;
    }

    /** GSP completes what it holds, one command after the other in any order, along with what is
        submitted meanwhile, until it holds nothing. A queue started with too few commands in flight runs
        for ever; one started with too many finishes while `left` are still in flight. */
    method Drain() returns (left: nat)
      requires Started()
      modifies this, curQueue
      ensures Started() && held == [] && curQueue == old(curQueue)
      ensures curQueue.numEntries == old(curQueue.numEntries)
      ensures old(isRunning) ==> (isRunning <==> old(Surplus()) < 0)
      ensures old(isRunning) && !isRunning ==> left == old(Surplus())
      ensures !old(isRunning) ==> !isRunning
    {
      left := 0;
      ghost var q, surplus, ran := curQueue, Surplus(), isRunning;
      while held != []
        invariant Started() && curQueue == q && q.numEntries == old(curQueue.numEntries)
        invariant isRunning ==> ran && Surplus() == surplus
        invariant ran && !isRunning ==> left == surplus
        decreases |held| + q.numEntries - q.curEntry
      {
        var pick: nat :| pick < |held|;
        var runCb := Complete(pick);
        if runCb != null { left := |held|; }
      }
    }

    /** A history: a running queue is stopped with f commands in flight, c of them complete, and
        then a queue is started, perhaps the same one. It finishes with all its commands
        completed and none of the stopped queue's left exactly when f - c is the number that it
        counts as submitted and not completed. With fewer it runs for ever with nothing in
        flight; with more it finishes too early. */
    method StopAndRestart(c: nat, queue: CmdQueue) returns (left: nat)
      requires Inv() && isRunning && queue.Valid()
      requires c <= curQueue.curEntry - curQueue.lastEntry
      modifies this, curQueue, queue
      ensures c == 0 ==> Stopping() && curQueue == old(curQueue)
      ensures c > 0 ==> curQueue == queue && Started() && held == [] && queue.numEntries == old(queue.numEntries)
      ensures c > 0 ==>
        var f := old(curQueue.curEntry - curQueue.lastEntry);
        var completed := old(queue.lastEntry) + if queue == old(curQueue) then 1 else 0;
        var counted := old(queue.curEntry) - completed;
        && (isRunning <==> f - c < counted)
        && (!isRunning && completed < queue.numEntries ==> left == f - c - counted)
    {
      ghost var first := curQueue;
      Stop();
      var i := 0;
      while i < c
        invariant i <= c && queue.Valid()
        invariant if i == 0 then Stopping() && curQueue == first else Stopped()
        invariant |held| == old(curQueue.curEntry - curQueue.lastEntry) - i
        invariant first.curEntry == old(curQueue.curEntry) && first.numEntries == old(curQueue.numEntries)
        invariant first.lastEntry == old(curQueue.lastEntry) + Min(i, 1)
        invariant queue != first ==>
          && queue.curEntry == old(queue.curEntry) && queue.lastEntry == old(queue.lastEntry)
          && queue.numEntries == old(queue.numEntries)
      {
        var pick: nat :| pick < |held|;
        var runCb := Complete(pick);
        i := i + 1;
      }
      Run(queue);
      left := 0;
      if c > 0 { left := Drain(); }
    }
  }

  /** A clock reading in gxCmdQueueWait, and what arrives before the next. */
  datatype Turn = Turn(tick: int, arrivals: seq<Arrival>)

  /** Waiting stands for not having returned when the turns end. */
  datatype Outcome = Finished | TimedOut | Waiting

  const U64 := 0x1_0000_0000_0000_0000

  /** The signed test of the 64-bit difference to the deadline; a negative timeout means none. */
  predicate TimeUp(start: int, timeout: int, tick: int) {
    timeout >= 0 && Past((start + timeout) % U64, tick)
  }

  predicate Past(deadline: int, tick: int) {
    (tick - deadline) % U64 < U64 / 2
  }

  /** The test says whether the timeout has passed since the start, in ticks, however the clock
      wraps, until half its range after the deadline. */
  lemma TimeUpMeans(start: int, timeout: int, elapsed: int)
    requires 0 <= timeout < U64 / 2 && 0 <= elapsed < timeout + U64 / 2
    ensures TimeUp(start, timeout, (start + elapsed) % U64) <==> elapsed >= timeout
  {
    var tick, deadline := (start + elapsed) % U64, (start + timeout) % U64;
    var a, b := (start + elapsed) / U64, (start + timeout) / U64;
    assert tick - deadline == elapsed - timeout + U64 * (b - a);
    if elapsed >= timeout {
      DivModUnique(tick - deadline, U64, b - a, elapsed - timeout);
    } else {
      DivModUnique(tick - deadline, U64, b - a - 1, elapsed - timeout + U64);
    }
  }

  function Arrivals(turns: seq<Turn>): seq<Arrival> {
    if turns == [] then [] else Arrivals(turns[..|turns| - 1]) + turns[|turns| - 1].arrivals
  }

  /** How many completions have arrived in the first k turns. */
  function Arrived(turns: seq<Turn>, k: nat): nat
    requires k <= |turns|
  {
    Completions(Arrivals(turns[..k]))
  }

  /** At turn i the queue has entries left and the time is not up. */
  predicate KeepsWaiting(start: int, timeout: int, turns: seq<Turn>, i: nat, remaining: int)
    requires i < |turns|
  {
    !TimeUp(start, timeout, turns[i].tick) && Arrived(turns, i) < remaining
  }

  lemma ArrivedNext(turns: seq<Turn>, k: nat)
    requires k < |turns|
    ensures Arrived(turns, k + 1) == Arrived(turns, k) + Completions(turns[k].arrivals)
  {
    assert turns[..k + 1][..k] == turns[..k];
    CompletionsConcat(Arrivals(turns[..k]), turns[k].arrivals);
  }

  lemma {:induction false} CompletionsConcat(a: seq<Arrival>, b: seq<Arrival>)
    ensures Completions(a + b) == Completions(a) + Completions(b)
    decreases |b|
  {
    if b == [] {
      assert a + b == a;
    } else {
      assert (a + b)[..|a + b| - 1] == a + b[..|b| - 1];
      CompletionsConcat(a, b[..|b| - 1]);
    }
  }

  /** Run three entries, stop, let all three complete, and run the queue again without clearing
      it: it stays running with nothing in flight, so that gxCmdQueueWait never returns. */
  method LostCompletions(e: Entry) returns (s: Scheduler, q: CmdQueue)
    ensures s.isRunning && s.held == [] && s.curQueue == q
  {
    s, q := ThreeRunning(e);
    var left := s.StopAndRestart(3, q);
  }

  /** Stop three running entries, let one complete, and run another queue: it finishes while two
      commands are still in flight. */
  method BorrowedCompletions(e: Entry) returns (s: Scheduler, q: CmdQueue, left: nat)
    ensures !s.isRunning && s.curQueue == q && q.numEntries == 1 && left == 2
  {
    var first;
    s, first := ThreeRunning(e);
    var entries := new Entry[1];
    q := new CmdQueue(1, entries);
    var panic := s.Add(q, e);
    left := s.StopAndRestart(1, q);
  }

  method ThreeRunning(e: Entry) returns (s: Scheduler, q: CmdQueue)
    ensures fresh(s) && fresh(q) && fresh(q.entries) && s.Inv() && s.isRunning && s.curQueue == q
    ensures q.numEntries == 3 && q.curEntry == 3 && q.lastEntry == 0
  {
    var entries := new Entry[3];
    q := new CmdQueue(3, entries);
    s := new Scheduler();
    var panic := s.Add(q, e);
    panic := s.Add(q, e);
    panic := s.Add(q, e);
    s.Run(q);
  }
}
