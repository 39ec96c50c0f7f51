/** The two rings a process shares with the GSP module: commands going out and interrupts
    coming in. The other side runs between any two steps of ours, on a schedule we do not
    control, and its header updates break our exclusive reservation. */
module GspRings {

  const COMMAND_SLOTS := 15
  const COMMAND_WORDS := 8
  const EVENT_SLOTS := 0x34

  type Command = seq<int>

  /** The commands waiting in a ring, oldest first, read from its slots. */
  ghost function Waiting(words: seq<int>, index: nat, total: nat): (q: seq<Command>)
    requires |words| == COMMAND_SLOTS * COMMAND_WORDS
    ensures |q| == total
  {
    seq(total, k requires 0 <= k < total => SlotWords(words, (index + k) % COMMAND_SLOTS))
  }

  ghost function SlotWords(words: seq<int>, slot: nat): (c: Command)
    requires |words| == COMMAND_SLOTS * COMMAND_WORDS && slot < COMMAND_SLOTS
    ensures |c| == COMMAND_WORDS
  {
    words[COMMAND_WORDS * slot..COMMAND_WORDS * slot + COMMAND_WORDS]
  }

  /** The slot after the last waiting command is not one of theirs. */
  lemma TailIsFree(words: seq<int>, index: nat, total: nat, w: nat, x: int)
    requires |words| == COMMAND_SLOTS * COMMAND_WORDS && total < COMMAND_SLOTS && w < COMMAND_WORDS
    ensures var tail := (index + total) % COMMAND_SLOTS;
            Waiting(words[COMMAND_WORDS * tail + w := x], index, total) == Waiting(words, index, total)
  {
    var tail := (index + total) % COMMAND_SLOTS;
    var words' := words[COMMAND_WORDS * tail + w := x];
    forall k | 0 <= k < total ensures Waiting(words', index, total)[k] == Waiting(words, index, total)[k] {
      var slot := (index + k) % COMMAND_SLOTS;
      assert slot != tail;
      assert SlotWords(words', slot) == SlotWords(words, slot);
    }
  }

  /** One more command, once the tail slot holds it. */
  lemma Appended(words: seq<int>, index: nat, total: nat)
    requires |words| == COMMAND_SLOTS * COMMAND_WORDS
    ensures Waiting(words, index, total + 1)
            == Waiting(words, index, total) + [SlotWords(words, (index + total) % COMMAND_SLOTS)]
  {
  }

  /** One fewer: the reader moves on by one slot. */
  lemma Popped(words: seq<int>, index: nat, total: nat)
    requires |words| == COMMAND_SLOTS * COMMAND_WORDS && total > 0 && index < COMMAND_SLOTS
    ensures Waiting(words, index, total)
            == [SlotWords(words, index)] + Waiting(words, (index + 1) % COMMAND_SLOTS, total - 1)
  {
    var next := (index + 1) % COMMAND_SLOTS;
    forall k {:trigger Waiting(words, next, total - 1)[k]} | 0 <= k < total - 1
      ensures Waiting(words, index, total)[k + 1] == Waiting(words, next, total - 1)[k]
    {
      assert next == index + 1 || index + 1 + k == COMMAND_SLOTS + (next + k);
    }
    assert Waiting(words, index, total)[0] == SlotWords(words, index);
    assert Waiting(words, index, total)[1..] == Waiting(words, next, total - 1);
  }

  /** The fields of the command ring's header word; `rest` is its upper half. */
  datatype CommandHeader = CommandHeader(index: nat, total: nat, rest: int)

  /** While we are preempted GSP takes up to this many commands, may rewrite the upper half of
      the header, and our reservation may be lost for no visible reason. */
  datatype ConsumerTurn = ConsumerTurn(pops: nat, rest: int, spurious: bool)

  class CommandRing {
    var header: CommandHeader
    var reserved: bool
    const words: array<int>
    ghost var consumed: seq<Command>  // every command GSP has taken

    ghost predicate Valid()
      reads this, words
    {
      && words.Length == 15 * 8
      && header.index < 15 && header.total <= 15
    }

    ghost function Queue(): seq<Command>
      requires Valid()
      reads this, words
    {
      Waiting(words[..], header.index, header.total)
    }

    /** Every command ever submitted, in order: those taken, then those waiting. */
    ghost function History(): seq<Command>
      requires Valid()
      reads this, words
    {
      consumed + Queue()
    }

    ghost function Tail(): nat
      reads this
    {
      (header.index + header.total) % COMMAND_SLOTS
    }

    constructor ()
      ensures Valid() && Queue() == [] && consumed == [] && fresh(words)
    {
      header := CommandHeader(0, 0, 0);
      reserved := false;
      words := new int[COMMAND_SLOTS * COMMAND_WORDS];
      consumed := [];
    }

    /** GSP takes the oldest command. */
    method Pop()
      requires Valid() && header.total > 0
      modifies this
      ensures Valid() && Tail() == old(Tail()) && header.total == old(header.total) - 1
      ensures History() == old(History())
    {
      Popped(words[..], header.index, header.total);
      consumed := consumed + [SlotWords(words[..], header.index)];
      header := header.(index := (header.index + 1) % COMMAND_SLOTS, total := header.total - 1);
    }

    /** One turn of the other side, if the schedule has one left. */
    method Preempted(env: seq<ConsumerTurn>, i: nat) returns (j: nat)
      requires Valid() && i <= |env|
      modifies this
      ensures Valid() && i <= j <= |env| && (i < |env| ==> j == i + 1)
      ensures Tail() == old(Tail()) && header.total <= old(header.total)
      ensures History() == old(History())
      ensures reserved ==> old(reserved) && header == old(header) && consumed == old(consumed)
      ensures i == |env| ==> reserved == old(reserved)
    {
      j := i;
      if i < |env| {
        var n := 0;
        while n < env[i].pops && header.total > 0
          invariant Valid() && n <= env[i].pops
          invariant Tail() == old(Tail()) && header.total <= old(header.total)
          invariant History() == old(History())
          invariant n == 0 ==> header == old(header) && consumed == old(consumed) && reserved == old(reserved)
        {
          Pop();
          n := n + 1;
        }
        if n > 0 || env[i].rest != header.rest || env[i].spurious {
          reserved := false;
        }
        header := header.(rest := env[i].rest);
        j := i + 1;
      }
    }

    method LoadExclusive() returns (h: CommandHeader)
      modifies this`reserved
      ensures h == header && reserved
    {
      h := header;
      reserved := true;
    }

    /** Writes one word of the slot after the last waiting command. */
    method WriteWord(slot: nat, w: nat, x: int)
      requires Valid() && header.total < COMMAND_SLOTS && slot == Tail() && w < COMMAND_WORDS
      modifies words
      ensures Valid() && History() == old(History())
      ensures SlotWords(words[..], slot) == old(SlotWords(words[..], slot))[w := x]
    {
      TailIsFree(words[..], header.index, header.total, w, x);
      ghost var before := words[..];
      words[COMMAND_WORDS * slot + w] := x;
      assert words[..] == before[COMMAND_WORDS * slot + w := x];
    }

    /** Copies the command into a slot, one word at a time, with the other side running
        between the words. */
    method CopyCommand(slot: nat, command: Command, env: seq<ConsumerTurn>, i: nat) returns (j: nat)
      requires Valid() && header.total < COMMAND_SLOTS && slot == Tail() && |command| == COMMAND_WORDS && i <= |env|
      modifies this, words
      ensures Valid() && i <= j <= |env|
      ensures Tail() == slot && header.total <= old(header.total)
      ensures History() == old(History())
      ensures SlotWords(words[..], slot) == command
      ensures reserved ==> old(reserved) && header == old(header)
    {
      j := i;
      for w := 0 to COMMAND_WORDS
        invariant Valid() && i <= j <= |env|
        invariant Tail() == slot && header.total <= old(header.total)
        invariant History() == old(History())
        invariant forall v :: 0 <= v < w ==> SlotWords(words[..], slot)[v] == command[v]
        invariant reserved ==> old(reserved) && header == old(header)
      {
        WriteWord(slot, w, command[w]);
        j := Preempted(env, j);
      }
    }

    method StoreExclusive(h: CommandHeader) returns (failed: bool)
      modifies this`header, this`reserved
      ensures failed == !old(reserved) && !reserved
      ensures header == if failed then old(header) else h
    {
      failed := !reserved;
      if reserved { header := h; }
      reserved := false;
    }

    /** A store-exclusive of the header, after one more turn of the other side. */
    method TryStore(h: CommandHeader, ghost command: Command, env: seq<ConsumerTurn>, i: nat)
      returns (failed: bool, j: nat)
      requires Valid() && i <= |env| && header.total < COMMAND_SLOTS
      requires SlotWords(words[..], Tail()) == command
      requires reserved ==> h == header.(total := header.total + 1)
      modifies this
      ensures Valid() && i <= j <= |env| && (i < |env| ==> i < j)
      ensures i == |env| && old(reserved) ==> !failed
      ensures failed ==> Tail() == old(Tail()) && header.total <= old(header.total) && History() == old(History())
      ensures !failed ==> History() == old(History()) + [command] && EndsWith(command)
      ensures !failed ==> (h.total == 1 <==> Queue() == [command])
    {
      j := Preempted(env, i);
      Appended(words[..], header.index, header.total);
      failed := StoreExclusive(h);
    }

    /** The tail slot holds the command, and if the reservation still stands, the header to store
        counts one more. */
    ghost predicate Prepared(h: CommandHeader, command: Command)
      requires Valid()
      reads this, words
    {
      && header.total < COMMAND_SLOTS && SlotWords(words[..], Tail()) == command
      && (reserved ==> h == header.(total := header.total + 1))
    }

    ghost predicate Stored(h: CommandHeader, command: Command)
      requires Valid()
      reads this, words
    {
      EndsWith(command) && (h.total == 1 <==> Queue() == [command])
    }

    /** One turn of the loop: stores the header, or reads it again. */
    method Attempt(h: CommandHeader, ghost command: Command, env: seq<ConsumerTurn>, i: nat)
      returns (failed: bool, next: CommandHeader, j: nat)
      requires Valid() && i <= |env| && Prepared(h, command)
      modifies this
      ensures Valid() && i <= j <= |env| && (i < |env| ==> i < j)
      ensures i == |env| && old(reserved) ==> !failed
      ensures failed ==> reserved && Prepared(next, command) && History() == old(History())
      ensures !failed ==> Stored(next, command) && History() == old(History()) + [command]
    {
      next := h;
      failed, j := TryStore(h, command, env, i);
      if failed {
        next := LoadExclusive();
        next := next.(total := next.total + 1);
      }
    }

    ghost predicate EndsWith(command: Command)
      requires Valid()
      reads this, words
    {
      Queue() != [] && Queue()[|Queue()| - 1] == command
    }

    /** gspSubmitGxCommand. The command goes to the back of the queue in one instant and nothing
        waiting is disturbed, whatever GSP takes meanwhile; the trigger is sent exactly when the
        queue was empty at that instant. */
    method Submit(command: Command, env: seq<ConsumerTurn>) returns (result: int, triggered: bool)
      requires Valid() && |command| == 8
      modifies this, words
      ensures Valid() && (result == 0 || result == -2)
      ensures result == -2 <==> old(header.total) == 15
      ensures result == -2 ==>
                header == old(header) && consumed == old(consumed) && words[..] == old(words[..]) && !triggered
      ensures result == 0 ==> History() == old(History()) + [command] && EndsWith(command)
      ensures result == 0 ==> (triggered <==> Queue() == [command])
    {
      triggered := false;
      var cmdBufHeader := LoadExclusive();
      if cmdBufHeader.total >= COMMAND_SLOTS { return -2, false; }
      var nextCmd := (cmdBufHeader.index + cmdBufHeader.total) % COMMAND_SLOTS;
      var j := CopyCommand(nextCmd, command, env, 0);
      cmdBufHeader := cmdBufHeader.(total := cmdBufHeader.total + 1);
      var failed := true;
      while failed
        invariant Valid() && j <= |env|
        invariant failed ==> Prepared(cmdBufHeader, command) && History() == old(History())
        invariant !failed ==> Stored(cmdBufHeader, command) && History() == old(History()) + [command]
        decreases |env| - j, failed, !reserved
      {
        failed, cmdBufHeader, j := Attempt(cmdBufHeader, command, env, j);
      }
      triggered := cmdBufHeader.total == 1;
      return 0, triggered;
    }
  }

  /** The fields of the interrupt ring's header word. */
  datatype EventHeader = EventHeader(cur: nat, count: nat, err: nat)

  /** While we are preempted GSP posts these interrupts, as far as there is room, counting the
      ones it has to drop; or our reservation is lost for no visible reason. */
  datatype ProducerTurn = ProducerTurn(posts: seq<int>, spurious: bool)

  /** The interrupts waiting in the ring, oldest first. */
  ghost function Pending(data: seq<int>, cur: nat, count: nat): (q: seq<int>)
    requires |data| == EVENT_SLOTS
    ensures |q| == count
  {
    seq(count, k requires 0 <= k < count => data[(cur + k) % EVENT_SLOTS])
  }

  lemma Dequeued(data: seq<int>, cur: nat, count: nat)
    requires |data| == EVENT_SLOTS && count > 0 && cur < EVENT_SLOTS
    ensures Pending(data, cur, count) == [data[cur]] + Pending(data, (cur + 1) % EVENT_SLOTS, count - 1)
  {
    var next := (cur + 1) % EVENT_SLOTS;
    forall k {:trigger Pending(data, next, count - 1)[k]} | 0 <= k < count - 1
      ensures Pending(data, cur, count)[k + 1] == Pending(data, next, count - 1)[k]
    {
      assert next == cur + 1 || cur + 1 + k == EVENT_SLOTS + (next + k);
    }
    assert Pending(data, cur, count)[0] == data[cur];
    assert Pending(data, cur, count)[1..] == Pending(data, next, count - 1);
  }

  lemma Posted(data: seq<int>, cur: nat, count: nat, x: int)
    requires |data| == EVENT_SLOTS && count < EVENT_SLOTS && cur < EVENT_SLOTS
    ensures Pending(data[(cur + count) % EVENT_SLOTS := x], cur, count + 1) == Pending(data, cur, count) + [x]
  {
    var tail := (cur + count) % EVENT_SLOTS;
    var data' := data[tail := x];
    forall k {:trigger Pending(data, cur, count)[k]} | 0 <= k < count
      ensures Pending(data', cur, count + 1)[k] == Pending(data, cur, count)[k]
    {
      assert (cur + k) % EVENT_SLOTS != tail;
    }
    assert Pending(data', cur, count + 1) == Pending(data, cur, count) + [x];
  }

  class InterruptRing {
    var header: EventHeader
    var reserved: bool
    const data: array<int>
    ghost var taken: seq<int>   // interrupts popped so far
    ghost var posted: seq<int>  // interrupts GSP has put in the ring so far

    ghost predicate Valid()
      reads this, data
    {
      && data.Length == 0x34 && header.cur < 0x34 && header.count <= 0x34
      && posted == taken + Pending(data[..], header.cur, header.count)
    }

    constructor ()
      ensures Valid() && posted == [] && fresh(data)
    {
      header := EventHeader(0, 0, 0);
      reserved := false;
      data := new int[EVENT_SLOTS];
      taken, posted := [], [];
    }

    method Preempted(env: seq<ProducerTurn>, i: nat) returns (j: nat)
      requires Valid() && i <= |env|
      modifies this`header, this`reserved, this`posted, data
      ensures Valid() && i <= j <= |env| && (i < |env| ==> j == i + 1)
      ensures old(posted) <= posted
      ensures reserved ==> old(reserved) && header == old(header) && posted == old(posted) && data[..] == old(data[..])
      ensures i == |env| ==> reserved == old(reserved)
    {
      j := i;
      if i < |env| {
        var posts := env[i].posts;
        for n := 0 to |posts|
          invariant Valid() && old(posted) <= posted
          invariant n == 0 ==>
            && header == old(header) && posted == old(posted)
            && data[..] == old(data[..]) && reserved == old(reserved)
        {
          if header.count < EVENT_SLOTS {
            var tail := (header.cur + header.count) % EVENT_SLOTS;
            Posted(data[..], header.cur, header.count, posts[n]);
            ghost var before := data[..];
            data[tail] := posts[n];
            assert data[..] == before[tail := posts[n]];
            header := header.(count := header.count + 1);
            posted := posted + [posts[n]];
          } else {
            header := header.(err := header.err + 1);
          }
        }
        if |posts| > 0 || env[i].spurious { reserved := false; }
        j := i + 1;
      }
    }

    /** A store-exclusive of the header that takes an interrupt, after one more turn. */
    method TryTake(h: EventHeader, curEvt: int, env: seq<ProducerTurn>, i: nat) returns (strexFailed: bool, j: nat)
      requires Valid() && i <= |env|
      requires reserved ==> header.count > 0 && curEvt == data[header.cur]
                            && h == EventHeader((header.cur + 1) % EVENT_SLOTS, header.count - 1, 0)
      modifies this, data
      ensures Valid() && i <= j <= |env| && (i < |env| ==> i < j)
      ensures i == |env| && old(reserved) ==> !strexFailed
      ensures old(posted) <= posted
      ensures taken == if strexFailed then old(taken) else old(taken) + [curEvt]
      ensures !strexFailed ==> header.err == 0
    {
      j := Preempted(env, i);
      strexFailed := !reserved;
      if reserved {
        Dequeued(data[..], header.cur, header.count);
        header := h;
        taken := taken + [curEvt];
      }
      reserved := false;
    }

    /** popInterrupt. Takes the oldest interrupt in one instant, or reports that there is none;
        interrupts arriving meanwhile are neither lost nor reordered. */
    method PopInterrupt(env: seq<ProducerTurn>) returns (curEvt: int, empty: bool)
      requires Valid()
      modifies this, data
      ensures Valid() && old(posted) <= posted
      ensures empty ==> curEvt == -1 && taken == old(taken) && taken == posted
      ensures !empty ==> taken == old(taken) + [curEvt] && header.err == 0
    {
      curEvt, empty := -1, false;
      var j := 0;
      var strexFailed := true;
      while strexFailed
        invariant Valid() && j <= |env| && old(posted) <= posted
        invariant taken == if strexFailed then old(taken) else old(taken) + [curEvt]
        invariant !strexFailed ==> header.err == 0
        decreases |env| - j, strexFailed
      {
        var h := header;
        reserved := true;
        if h.count == 0 {
          reserved := false;
          return -1, true;
        }
        j := Preempted(env, j);
        curEvt := data[h.cur];
        h := h.(cur := h.cur + 1);
        if h.cur >= EVENT_SLOTS { h := h.(cur := h.cur - EVENT_SLOTS); }
        h := h.(count := h.count - 1, err := 0);
        strexFailed, j := TryTake(h, curEvt, env, j);
      }
    }
  }
}
