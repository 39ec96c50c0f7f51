/** The wave-buffer side of an NDSP channel: a linked queue of buffers, of which the first few
    are outstanding with the DSP, the head in the main registers and the others in four
    hardware slots used in rotation. */
module NdspChannel {

  const MAX_OUTSTANDING := 5
  const HW_SLOTS := 4
  const U16 := 0x1_0000

  datatype Status = Free | Queued | Playing | Done

  class WaveBuf {
    var nsamples: nat
    var status: Status
    var sequenceId: int
    var next: WaveBuf?

    constructor (nsamples: nat)
      ensures this.nsamples == nsamples && status == Free && next == null
    {
      this.nsamples, status, sequenceId, next := nsamples, Free, 0, null;
    }
  }

  function Min(a: int, b: int): int {
    if a <= b then a else b
  }

  // Sequence ids run through 1..65535 and round again; 0 is never used.

  function NextId(id: int): int {
    if id == U16 - 1 then 1 else id + 1
  }

  function FirstId(counter: int): int {
    if counter == 0 then 1 else counter
  }

  /** Each id in range and followed by the next one, the last by what the counter gives. */
  predicate Consecutive(ids: seq<int>, counter: int) {
    && 0 <= counter < U16
    && forall i :: 0 <= i < |ids| ==> 1 <= ids[i] < U16 && IdAfter(ids, counter, i) == NextId(ids[i])
  }

  function IdAfter(ids: seq<int>, counter: int, i: nat): int
    requires i < |ids|
  {
    if i + 1 < |ids| then ids[i + 1] else FirstId(counter)
  }

  lemma CycleOn(n: int, id: int)
    requires id == n % 65535 + 1
    ensures NextId(id) == (n + 1) % 65535 + 1
  {
  }

  predicate InStep(ids: seq<int>, i: nat)
    requires i < |ids|
  {
    1 <= ids[i] < U16 && (i + 1 < |ids| ==> ids[i + 1] == NextId(ids[i]))
  }

  lemma {:induction false} CycleFrom(ids: seq<int>, i: nat, n: int)
    requires i < |ids| && n == ids[0] - 1 && forall k :: 0 <= k < |ids| ==> InStep(ids, k)
    ensures ids[i] == (n + i) % 65535 + 1
  {
    if i == 0 {
      assert InStep(ids, 0);
    } else {
      CycleFrom(ids, i - 1, n);
      assert InStep(ids, i - 1);
      CycleOn(n + (i - 1), ids[i - 1]);
    }
  }

  /** From the first id on they count up through 1..65535, over and over. */
  lemma IdsCycle(ids: seq<int>, counter: int, i: nat)
    requires Consecutive(ids, counter) && i < |ids|
    ensures ids[i] == (ids[0] - 1 + i) % 65535 + 1
  {
    forall k | 0 <= k < |ids| ensures InStep(ids, k) {
      assert IdAfter(ids, counter, k) == NextId(ids[k]);
    }
    CycleFrom(ids, i, ids[0] - 1);
  }

  lemma ConsecutiveAppend(ids: seq<int>, counter: int)
    requires Consecutive(ids, counter)
    ensures Consecutive(ids + [FirstId(counter)], (FirstId(counter) + 1) % U16)
  {
    var ids' := ids + [FirstId(counter)];
    forall i | 0 <= i < |ids'|
      ensures 1 <= ids'[i] < U16 && IdAfter(ids', (FirstId(counter) + 1) % U16, i) == NextId(ids'[i])
    {
      if i < |ids| { assert IdAfter(ids, counter, i) == NextId(ids[i]); }
    }
  }

  lemma ConsecutiveDrop(ids: seq<int>, counter: int, k: nat)
    requires Consecutive(ids, counter) && k <= |ids|
    ensures Consecutive(ids[k..], counter)
  {
    forall i | 0 <= i < |ids[k..]|
      ensures 1 <= ids[k..][i] < U16 && IdAfter(ids[k..], counter, i) == NextId(ids[k..][i])
    {
      assert IdAfter(ids, counter, k + i) == NextId(ids[k + i]);
    }
  }

  // Hardware slots.

  /** The slot that outstanding buffer i, behind the head, was given. */
  function SlotOf(idNext: nat, count: nat, i: nat): nat
    requires i < count <= MAX_OUTSTANDING
  {
    (idNext + MAX_OUTSTANDING * HW_SLOTS - (count - i)) % HW_SLOTS
  }

  /** The slots of the outstanding buffers behind the head still hold their ids. */
  predicate SlotsHold(slots: seq<int>, idNext: nat, count: nat, ids: seq<int>) {
    && idNext < HW_SLOTS == |slots| && count <= MAX_OUTSTANDING && count <= |ids|
    && forall i :: 0 < i < count ==> slots[SlotOf(idNext, count, i)] == ids[i]
  }

  /** No two outstanding buffers behind the head share a slot. */
  lemma SlotsDistinct(idNext: nat, count: nat, i: nat, j: nat)
    requires count <= MAX_OUTSTANDING && 0 < i < j < count
    ensures SlotOf(idNext, count, i) != SlotOf(idNext, count, j)
  {
  }

  lemma SlotsNext(slots: seq<int>, idNext: nat, count: nat, ids: seq<int>)
    requires SlotsHold(slots, idNext, count, ids) && 0 < count < MAX_OUTSTANDING && count < |ids|
    ensures SlotsHold(slots[idNext := ids[count]], (idNext + 1) % HW_SLOTS, count + 1, ids)
  {
    var idNext' := (idNext + 1) % HW_SLOTS;
    assert SlotOf(idNext', count + 1, count) == idNext;
    forall i | 0 < i < count ensures SlotOf(idNext', count + 1, i) == SlotOf(idNext, count, i) != idNext { }
  }

  lemma SlotsDrop(slots: seq<int>, idNext: nat, count: nat, ids: seq<int>, k: nat)
    requires SlotsHold(slots, idNext, count, ids) && k <= count
    ensures SlotsHold(slots, idNext, count - k, ids[k..])
  {
    forall i | 0 < i < count - k ensures slots[SlotOf(idNext, count - k, i)] == ids[k..][i] {
      assert SlotOf(idNext, count - k, i) == SlotOf(idNext, count, i + k);
    }
  }

  /** How many buffers at the front of the queue a DSP status report shows to be finished. */
  function Finished(ids: seq<int>, outstanding: nat, seqId: int, lastSeqId: int): (k: nat)
    requires outstanding <= |ids|
    ensures k <= outstanding
  {
    if outstanding == 0 || ids[0] == seqId then 0
    else if seqId == 0 && (ids[0] == lastSeqId || lastSeqId == 0) then 1
    else 1 + Finished(ids[1..], outstanding - 1, seqId, lastSeqId)
  }

  lemma FinishedAt(ids: seq<int>, k: nat, outstanding: nat, seqId: int, lastSeqId: int)
    requires 0 < outstanding && k + outstanding <= |ids|
    ensures Finished(ids[k..], outstanding, seqId, lastSeqId) ==
            if ids[k] == seqId then 0
            else if seqId == 0 && (ids[k] == lastSeqId || lastSeqId == 0) then 1
            else 1 + Finished(ids[k + 1..], outstanding - 1, seqId, lastSeqId)
  {
    assert ids[k..][1..] == ids[k + 1..];
  }

  /** What Finished computes: buffers before the one playing, if it is outstanding; when the
      DSP plays none, those up to and including the last it played, or just the head if it
      names none; and otherwise all that are outstanding. */
  lemma {:induction false} FinishedMeans(ids: seq<int>, outstanding: nat, seqId: int, lastSeqId: int)
    requires outstanding <= |ids| && forall i :: 0 <= i < |ids| ==> ids[i] != 0
    ensures var k := Finished(ids, outstanding, seqId, lastSeqId);
            && (forall i :: 0 <= i < k ==> ids[i] != seqId)
            && (seqId != 0 ==> k == outstanding || ids[k] == seqId)
            && (seqId == 0 && lastSeqId == 0 ==> k == Min(1, outstanding))
            && (seqId == 0 && lastSeqId != 0 ==>
                  && (forall i :: 0 <= i < k - 1 ==> ids[i] != lastSeqId)
                  && (k == outstanding || (k > 0 && ids[k - 1] == lastSeqId)))
  {
    if outstanding > 0 && ids[0] != seqId && !(seqId == 0 && (ids[0] == lastSeqId || lastSeqId == 0)) {
      FinishedMeans(ids[1..], outstanding - 1, seqId, lastSeqId);
      var k := Finished(ids, outstanding, seqId, lastSeqId);
      forall i | 0 <= i < k ensures ids[i] != seqId {
        if i > 0 { assert ids[i] == ids[1..][i - 1]; }
      }
      if seqId == 0 && lastSeqId != 0 {
        forall i | 0 <= i < k - 1 ensures ids[i] != lastSeqId {
          if i > 0 { assert ids[i] == ids[1..][i - 1]; }
        }
      }
    }
  }

  class Channel {
    var waveBuf: WaveBuf?
    var wavBufCount: nat
    var wavBufIdNext: nat
    var wavBufSeq: int
    var waveBufSeqPos: int
    var syncCount: int
    var playing: bool
    var headSeqId: int              // the DSP's main registers: the id set up there
    var slotSeqId: seq<int>         // the four hardware slots: the ids written there
    ghost var list: seq<WaveBuf>    // the queue, head first
    ghost var ids: seq<int>         // its sequence ids
    ghost var added: seq<WaveBuf>   // every buffer ever queued, in order
    ghost var finished: nat         // how many of those are done

    /** The links follow the list, and the last leads to `end`. */
    ghost predicate LinkedAt(i: nat, end: WaveBuf?)
      requires i < |list|
      reads this`list, list`next
    {
      list[i].next == (if i + 1 < |list| then list[i + 1] else end)
    }

    ghost predicate HeldAt(i: nat)
      requires i < |list| == |ids|
      reads this`list, this`ids, list`status, list`sequenceId
    {
      (list[i].status == Queued || list[i].status == Playing) && list[i].sequenceId == ids[i]
    }

    ghost predicate Distinct()
      reads this`list
    {
      forall i, j :: 0 <= i < j < |list| ==> list[i] != list[j]
    }

    /** The channel's invariant, for a queue whose last link leads to `end`. */
    ghost predicate ValidTo(end: WaveBuf?)
      reads this`waveBuf, this`list, this`ids, this`added, this`finished
      reads this`wavBufSeq, this`wavBufCount, this`wavBufIdNext, this`slotSeqId
      reads list`next, list`status, list`sequenceId
    {
      && |ids| == |list| && Distinct()
      && waveBuf == (if list == [] then end else list[0])
      && (forall i :: 0 <= i < |list| ==> LinkedAt(i, end))
      && (forall i :: 0 <= i < |list| ==> HeldAt(i))
      && Consecutive(ids, wavBufSeq)
      && SlotsHold(slotSeqId, wavBufIdNext, wavBufCount, ids)
      && finished <= |added| && list == added[finished..]
    }

    ghost predicate Valid()
      reads this`waveBuf, this`list, this`ids, this`added, this`finished
      reads this`wavBufSeq, this`wavBufCount, this`wavBufIdNext, this`slotSeqId
      reads list`next, list`status, list`sequenceId
    {
      ValidTo(null)
    }

    /** The done buffers are a prefix of those added: each buffer added before the ones in the
        queue is done, unless it has been added again since. */
    ghost predicate DonePrefix()
      reads this`list, this`added, this`finished, added`status
    {
      && finished <= |added|
      && forall i :: 0 <= i < finished ==> added[i].status == Done || added[i] in list
    }

    constructor ()
      ensures Valid() && DonePrefix() && list == [] && added == [] && finished == 0
    {
      waveBuf, wavBufCount, wavBufIdNext, wavBufSeq := null, 0, 0, 0;
      waveBufSeqPos, syncCount, playing, headSeqId := 0, 0, false, 0;
      slotSeqId := [0, 0, 0, 0];
      list, ids, added, finished := [], [], [], 0;
    }

    /** Marks every buffer done and empties the queue. */
    method DropAll()
      requires Valid()
      modifies this`waveBuf, this`list, this`ids, this`finished, list`status
      ensures waveBuf == null && list == [] && ids == [] && finished == |added|
      ensures forall w :: w in old(list) ==> w.status == Done
    {
      ghost var k := 0;
      while waveBuf != null
        invariant k <= |list| && waveBuf == (if k < |list| then list[k] else null)
        invariant list == old(list)
        invariant forall i :: 0 <= i < k ==> list[i].status == Done
        decreases |list| - k
      {
        assert old(LinkedAt(k, null));
        waveBuf.status := Done;
        waveBuf := waveBuf.next;
        k := k + 1;
      }
      list, ids, finished := [], [], |added|;
    }

    /** ndspChnWaveBufClear, and the wave-buffer part of ndspChnReset. */
    method WaveBufClear()
      requires Valid()
      modifies this, list`status
      ensures Valid() && list == [] && added == old(added) && finished == |added|
      ensures forall w :: w in old(list) ==> w.status == Done
      ensures old(DonePrefix()) ==> DonePrefix()
      ensures !playing && wavBufCount == 0 && waveBufSeqPos == 0 && syncCount == (old(syncCount) + 1) % 65536
      ensures wavBufIdNext == 0 && wavBufSeq == 0
    {
      DropAll();
      assert forall i :: old(finished) <= i < |added| ==> added[i] == old(list)[i - old(finished)];
      waveBufSeqPos := 0;
      wavBufCount := 0;
      wavBufIdNext := 0;
      wavBufSeq := 0;
      playing := false;
      syncCount := (syncCount + 1) % U16;
    }

    lemma NotQueuedMeansAbsent(buf: WaveBuf)
      requires Valid() && buf.status != Queued && buf.status != Playing
      ensures buf !in list
    {
      forall i | 0 <= i < |list| ensures list[i] != buf { assert HeldAt(i); }
    }

    /** Walks to the end of the queue and links the buffer there. */
    method LinkAtBack(buf: WaveBuf)
      requires Valid() && buf !in list
      modifies this`waveBuf, list`next
      ensures ValidTo(buf)
    {
      var cb := waveBuf;
      if cb != null {
        ghost var k := 0;
        while cb.next != null
          invariant k < |list| && cb == list[k]
          decreases |list| - k
          modifies {}
        {
          assert LinkedAt(k, null);
          cb := cb.next;
          k := k + 1;
        }
        assert LinkedAt(k, null);
        cb.next := buf;
        forall i | 0 <= i < |list| ensures LinkedAt(i, buf) {
          assert old(LinkedAt(i, null));
        }
      } else {
        waveBuf := buf;
      }
      forall i | 0 <= i < |list| ensures HeldAt(i) { assert old(HeldAt(i)); }
    }

    /** ndspChnWaveBufAdd. A buffer still queued or playing, here or on another channel, is left
        alone; any other goes to the back with the next id. */
    method WaveBufAdd(buf: WaveBuf)
      requires Valid()
      modifies this, list`next, buf
      ensures Valid()
      ensures var accepted := old(buf.nsamples) > 0 && old(buf.status) != Queued && old(buf.status) != Playing;
              && list == old(list) + (if accepted then [buf] else [])
              && added == old(added) + (if accepted then [buf] else [])
              && ids == old(ids) + (if accepted then [FirstId(old(wavBufSeq))] else [])
              && buf.status == (if accepted then Queued else old(buf.status))
              && wavBufSeq == (if accepted then (FirstId(old(wavBufSeq)) + 1) % 65536 else old(wavBufSeq))
      ensures finished == old(finished) && wavBufCount == old(wavBufCount) && playing == old(playing)
      ensures old(DonePrefix()) ==> DonePrefix()
    {
      if buf.nsamples == 0 { return; }
      if buf.status == Queued || buf.status == Playing { return; }
      NotQueuedMeansAbsent(buf);
      Prepare(buf);
      LinkAtBack(buf);
      Enqueue(buf);
    }

    method Prepare(buf: WaveBuf)
      requires Valid() && buf !in list
      modifies buf`next, buf`status
      ensures Valid() && buf.next == null && buf.status == Queued
    {
      buf.next := null;
      buf.status := Queued;
      forall i | 0 <= i < |list| ensures LinkedAt(i, null) && HeldAt(i) {
        assert old(LinkedAt(i, null)) && old(HeldAt(i));
      }
    }

    /** Gives the buffer at the end of the links its id; it is now part of the queue. */
    method Enqueue(buf: WaveBuf)
      requires ValidTo(buf) && buf !in list && buf.next == null && buf.status == Queued
      modifies this`wavBufSeq, this`list, this`added, this`ids, buf`sequenceId
      ensures Valid() && list == old(list) + [buf] && added == old(added) + [buf]
      ensures ids == old(ids) + [FirstId(old(wavBufSeq))] && wavBufSeq == (FirstId(old(wavBufSeq)) + 1) % U16
    {
      var id := wavBufSeq;
      if id == 0 { id := 1; }
      buf.sequenceId := id;
      ConsecutiveAppend(ids, wavBufSeq);
      wavBufSeq := (id + 1) % U16;
      ghost var before := list;
      list, added, ids := list + [buf], added + [buf], ids + [id];
      forall i | 0 <= i < |list| ensures LinkedAt(i, null) && HeldAt(i) {
        if i < |before| { assert old(LinkedAt(i, buf)) && old(HeldAt(i)); }
      }
    }

    /** The first buffer not yet outstanding, found by walking from the head. */
    method FirstPending() returns (wb: WaveBuf?)
      requires Valid()
      ensures wb == if wavBufCount < |list| then list[wavBufCount] else null
    {
      var wvcount := wavBufCount;
      wb := waveBuf;
      ghost var k := 0;
      while wvcount > 0 && wb != null
        invariant 0 <= wvcount && k <= |list| && wb == (if k < |list| then list[k] else null)
        invariant wvcount + k == wavBufCount
      {
        assert LinkedAt(k, null);
        wb := wb.next;
        wvcount := wvcount - 1;
        k := k + 1;
      }
    }

    /** The wave-buffer part of ndspiUpdateChn: hands buffers to the DSP until five are
        outstanding or the queue ends. */
    method Update()
      requires Valid()
      modifies this`playing, this`wavBufCount, this`wavBufIdNext, this`headSeqId, this`slotSeqId, list`status
      ensures Valid() && wavBufCount == Min(|list|, 5)
      ensures playing == (old(playing) || list != [])
      ensures if old(wavBufCount) == 0 && list != [] then headSeqId == ids[0] && list[0].status == Playing
              else headSeqId == old(headSeqId)
      ensures forall w :: w in list && !(w == list[0] && old(wavBufCount) == 0) ==> w.status == old(w.status)
      ensures old(DonePrefix()) ==> DonePrefix()
    {
      BeginPlaying();
      var wb := FirstPending();
      wb := Start(wb);
      Fill(wb);
    }

    method BeginPlaying()
      modifies this`playing
      ensures playing == (old(playing) || waveBuf != null)
    {
      if waveBuf != null && !playing { playing := true; }
    }

    /** Sets up the first buffer when none is outstanding yet. */
    method Start(pending: WaveBuf?) returns (wb: WaveBuf?)
      requires Valid() && pending == (if wavBufCount < |list| then list[wavBufCount] else null)
      modifies this`wavBufCount, this`wavBufIdNext, this`headSeqId, list`status
      ensures Valid() && (wavBufCount == 0 ==> list == [])
      ensures wb == (if wavBufCount < |list| then list[wavBufCount] else null)
      ensures if old(wavBufCount) == 0 && list != [] then headSeqId == ids[0] && list[0].status == Playing
              else headSeqId == old(headSeqId)
      ensures forall w :: w in list && !(w == list[0] && old(wavBufCount) == 0) ==> w.status == old(w.status)
      ensures old(DonePrefix()) ==> DonePrefix()
    {
      wb := pending;
      if wavBufCount == 0 && wb != null {
        wb := SetUpFirst(wb);
      }
    }

    /** Queues buffers in hardware slots as long as there are slots and buffers. */
    method Fill(pending: WaveBuf?)
      requires Valid() && (wavBufCount == 0 ==> list == [])
      requires pending == (if wavBufCount < |list| then list[wavBufCount] else null)
      modifies this`wavBufCount, this`wavBufIdNext, this`slotSeqId
      ensures Valid() && wavBufCount == Min(|list|, 5)
    {
      var wb := pending;
      while wb != null && wavBufCount < MAX_OUTSTANDING
        invariant Valid() && (wavBufCount == 0 ==> list == [])
        invariant wb == (if wavBufCount < |list| then list[wavBufCount] else null)
        decreases MAX_OUTSTANDING - wavBufCount
      {
        assert LinkedAt(wavBufCount, null);
        QueueNext(wb);
        wb := wb.next;
      }
    }

    /** The first buffer goes to the main registers. */
    method SetUpFirst(wb: WaveBuf) returns (next: WaveBuf?)
      requires Valid() && wavBufCount == 0 && list != [] && wb == list[0]
      modifies this`wavBufCount, this`wavBufIdNext, this`headSeqId, wb`status
      ensures Valid() && wavBufCount == 1 && wavBufIdNext == 0 && headSeqId == ids[0] && wb.status == Playing
      ensures next == (if |list| > 1 then list[1] else null)
      ensures old(DonePrefix()) ==> DonePrefix()
    {
      assert LinkedAt(0, null);
      next := wb.next;
      assert HeldAt(0);
      wb.status := Playing;
      wavBufIdNext := 0;
      headSeqId := wb.sequenceId;
      wavBufCount := 1;
      forall i | 0 <= i < |list| ensures HeldAt(i) { assert old(HeldAt(i)); }
    }

    /** A later buffer goes to the next hardware slot. */
    method QueueNext(wb: WaveBuf)
      requires Valid() && 0 < wavBufCount < MAX_OUTSTANDING && wavBufCount < |list| && wb == list[wavBufCount]
      modifies this`wavBufCount, this`wavBufIdNext, this`slotSeqId
      ensures Valid() && wavBufCount == old(wavBufCount) + 1 && wavBufIdNext == (old(wavBufIdNext) + 1) % 4
      ensures slotSeqId == old(slotSeqId)[old(wavBufIdNext) := ids[old(wavBufCount)]]
    {
      assert HeldAt(wavBufCount);
      SlotsNext(slotSeqId, wavBufIdNext, wavBufCount, ids);
      slotSeqId := slotSeqId[wavBufIdNext := wb.sequenceId];
      wavBufIdNext := (wavBufIdNext + 1) % HW_SLOTS;
      wavBufCount := wavBufCount + 1;
    }

    /** A retired buffer's link: back to the one retired before it. */
    ghost predicate BackAt(i: nat)
      requires i < |list|
      reads this`list, list`next
    {
      list[i].next == (if i == 0 then null else list[i - 1])
    }

    /** The queue half taken apart: the first k buffers linked backwards, the rest as before. */
    ghost predicate Split(wb: WaveBuf?, doneList: WaveBuf?, k: nat)
      reads this`list, this`ids, list`next, list`status, list`sequenceId
    {
      && |ids| == |list| && Distinct() && k <= |list|
      && wb == (if k < |list| then list[k] else null)
      && doneList == (if k == 0 then null else list[k - 1])
      && (forall i :: 0 <= i < k ==> BackAt(i))
      && (forall i :: k <= i < |list| ==> LinkedAt(i, null))
      && (forall i :: 0 <= i < |list| ==> HeldAt(i))
    }

    /** Moves the buffer at the front over to the finished ones. */
    method TakeOff(wb: WaveBuf, doneList: WaveBuf?, ghost k: nat) returns (next: WaveBuf?)
      requires Split(wb, doneList, k)
      modifies wb`next
      ensures Split(next, wb, k + 1)
    {
      assert LinkedAt(k, null);
      next := wb.next;
      wb.next := doneList;
      forall i | 0 <= i < |list| ensures if i <= k then BackAt(i) else LinkedAt(i, null) {
        assert i < k ==> old(BackAt(i));
        assert i > k ==> old(LinkedAt(i, null));
      }
    }

    /** One turn of the loop that collects finished buffers: the front buffer is the current
        one and stays, or it is taken off, perhaps as the last. */
    method Examine(wb: WaveBuf, doneList: WaveBuf?, ghost k: nat, seqId: int, lastSeqId: int)
      returns (next: WaveBuf?, newDone: WaveBuf?, ghost k': nat, current: bool, last: bool)
      requires Split(wb, doneList, k) && wavBufCount > 0 && k + wavBufCount <= |ids|
      modifies this`wavBufCount, wb`next
      ensures Split(next, newDone, k')
      ensures if current then k' == k && wavBufCount == old(wavBufCount) && k < |list| && ids[k] == seqId
              else k' == k + 1 && wavBufCount == old(wavBufCount) - 1
      ensures last ==> seqId == 0
      ensures Finished(ids[k..], old(wavBufCount), seqId, lastSeqId) ==
              k' - k + if current || last then 0 else Finished(ids[k'..], wavBufCount, seqId, lastSeqId)
    {
      assert HeldAt(k);
      FinishedAt(ids, k, wavBufCount, seqId, lastSeqId);
      next, newDone, k', current, last := wb, doneList, k, false, false;
      var wbSeqId := wb.sequenceId;
      if wbSeqId == seqId {
        current := true;
        return;
      }
      wavBufCount := wavBufCount - 1;
      next := TakeOff(wb, doneList, k);
      newDone, k' := wb, k + 1;
      last := seqId == 0 && (wbSeqId == lastSeqId || lastSeqId == 0);
    }

    /** Takes finished buffers off the front, collecting them last first. */
    method Collect(seqId: int, lastSeqId: int) returns (wb: WaveBuf?, doneList: WaveBuf?, ghost k: nat)
      requires Valid()
      modifies this`wavBufCount, list`next, list`status
      ensures k == Finished(ids, old(wavBufCount), seqId, lastSeqId) && wavBufCount == old(wavBufCount) - k
      ensures Split(wb, doneList, k)
      ensures seqId != 0 && wavBufCount > 0 ==> k < |list| && list[k].status == Playing && ids[k] == seqId
      ensures old(DonePrefix()) ==> DonePrefix()
    {
      wb, doneList, k := waveBuf, null, 0;
      var current, last := false, false;
      ghost var goal := Finished(ids, wavBufCount, seqId, lastSeqId);
      assert ids[0..] == ids;
      while wavBufCount > 0 && !current && !last
        invariant k + wavBufCount == old(wavBufCount) <= |ids|
        invariant Split(wb, doneList, k)
        invariant current ==> k < |list| && ids[k] == seqId
        invariant last ==> seqId == 0
        invariant goal == k + if current || last then 0 else Finished(ids[k..], wavBufCount, seqId, lastSeqId)
        decreases wavBufCount, !current
        modifies this`wavBufCount, list`next
      {
        wb, doneList, k, current, last := Examine(wb, doneList, k, seqId, lastSeqId);
      }
      if current { MarkPlaying(wb, doneList, k); }
    }

    method MarkPlaying(wb: WaveBuf, ghost doneList: WaveBuf?, ghost k: nat)
      requires Split(wb, doneList, k)
      modifies wb`status
      ensures Split(wb, doneList, k) && wb.status == Playing
    {
      wb.status := Playing;
      forall i | 0 <= i < |list| ensures HeldAt(i) { assert old(HeldAt(i)); }
    }

    method MarkDone(ghost wb: WaveBuf?, last: WaveBuf?, ghost k: nat)
      requires Split(wb, last, k)
      modifies list`status
      ensures forall i :: 0 <= i < |list| ==> list[i].status == if i < k then Done else old(list[i].status)
      ensures forall i :: k <= i < |list| ==> LinkedAt(i, null) && HeldAt(i)
    {
      var doneList := last;
      ghost var j := k;
      while doneList != null
        invariant 0 <= j <= k && (j > 0 ==> doneList == list[j - 1]) && (j == 0 ==> doneList == null)
        invariant forall i :: 0 <= i < |list| ==> list[i].status == if j <= i < k then Done else old(list[i].status)
        decreases j
      {
        assert BackAt(j - 1);
        doneList.status := Done;
        doneList := doneList.next;
        j := j - 1;
      }
      forall i | k <= i < |list| ensures LinkedAt(i, null) && HeldAt(i) {
        assert old(HeldAt(i));
      }
    }

    /** The queue goes on without its first k buffers. */
    ghost method Trim(k: nat, count: nat)
      requires |ids| == |list| && Distinct() && k <= |list| && waveBuf == (if k < |list| then list[k] else null)
      requires forall i :: k <= i < |list| ==> LinkedAt(i, null) && HeldAt(i)
      requires finished <= |added| && list == added[finished..]
      requires Consecutive(ids, wavBufSeq) && SlotsHold(slotSeqId, wavBufIdNext, count, ids)
      requires k <= count && (wavBufCount == count - k || wavBufCount == 0)
      modifies this`list, this`ids, this`finished
      ensures Valid()
      ensures list == old(list)[k..] && ids == old(ids)[k..] && finished == old(finished) + k
    {
      ConsecutiveDrop(ids, wavBufSeq, k);
      SlotsDrop(slotSeqId, wavBufIdNext, count, ids, k);
      list, ids, finished := list[k..], ids[k..], finished + k;
      forall i | 0 <= i < |list| ensures LinkedAt(i, null) && HeldAt(i) {
        assert old(LinkedAt(k + i, null)) && old(HeldAt(k + i));
      }
    }

    /** What a status report from the DSP leaves of the queue: some buffers off the front are
        done, and of the rest so many are still outstanding. */
    ghost predicate Retired(before: seq<WaveBuf>, idsBefore: seq<int>, k: nat, outstanding: nat)
      reads this`list, this`ids, this`wavBufCount, before`status
    {
      && k <= |before| && k <= |idsBefore|
      && list == before[k..] && ids == idsBefore[k..] && wavBufCount == outstanding
      && forall i :: 0 <= i < k ==> before[i].status == Done
    }

    /** ndspiReadChnState, for a report the DSP made since the last sync: the ids it is playing
        and has last played, whether it says that buffers changed, and whether it plays. */
    method ReadState(curSeqId: int, lastSeqId: int, changed: bool, plays: bool)
      requires Valid()
      modifies this`waveBufSeqPos, this`playing
      modifies this`waveBuf, this`wavBufCount, this`list, this`ids, this`finished, list`next, list`status
      ensures Valid() && added == old(added)
      ensures !changed ==> Retired(old(list), old(ids), 0, old(wavBufCount)) && finished == old(finished)
      ensures changed ==>
        var k := Finished(old(ids), old(wavBufCount), curSeqId, lastSeqId);
        && Retired(old(list), old(ids), k, if curSeqId == 0 then 0 else old(wavBufCount) - k)
        && finished == old(finished) + k
      ensures changed && curSeqId != 0 && wavBufCount > 0 ==>
                list != [] && ids[0] == curSeqId && list[0].status == Playing
      ensures old(DonePrefix()) ==> DonePrefix()
      ensures playing == plays && waveBufSeqPos == curSeqId
    {
      Report(curSeqId, plays);
      if changed && waveBuf != null {
        Retire(curSeqId, lastSeqId);
      } else {
        AsItWas();
      }
    }

    method Report(curSeqId: int, plays: bool)
      requires Valid()
      modifies this`waveBufSeqPos, this`playing
      ensures Valid() && playing == plays && waveBufSeqPos == curSeqId
    {
      waveBufSeqPos := curSeqId;
      playing := plays;
    }

    lemma AsItWas()
      requires Valid()
      ensures Retired(list, ids, 0, wavBufCount)
      ensures waveBuf == null ==> wavBufCount == 0
    {
      assert list[0..] == list && ids[0..] == ids;
    }

    method Retire(seqId: int, lastSeqId: int)
      requires Valid()
      modifies this`waveBuf, this`wavBufCount, this`list, this`ids, this`finished, list`next, list`status
      ensures Valid()
      ensures var k := Finished(old(ids), old(wavBufCount), seqId, lastSeqId);
              && Retired(old(list), old(ids), k, if seqId == 0 then 0 else old(wavBufCount) - k)
              && finished == old(finished) + k
      ensures seqId != 0 && wavBufCount > 0 ==> list != [] && ids[0] == seqId && list[0].status == Playing
      ensures old(DonePrefix()) ==> DonePrefix()
    {
      ghost var count := wavBufCount;
      var wb, doneList, k := Collect(seqId, lastSeqId);
      if seqId == 0 { wavBufCount := 0; }
      DropFront(wb, doneList, k, count);
    }

    /** The k buffers taken off are done and the queue goes on without them. */
    method DropFront(wb: WaveBuf?, doneList: WaveBuf?, ghost k: nat, ghost count: nat)
      requires Split(wb, doneList, k) && finished <= |added| && list == added[finished..]
      requires Consecutive(ids, wavBufSeq) && SlotsHold(slotSeqId, wavBufIdNext, count, ids)
      requires k <= count && (wavBufCount == count - k || wavBufCount == 0)
      modifies this`waveBuf, this`list, this`ids, this`finished, list`status
      ensures Valid() && finished == old(finished) + k
      ensures Retired(old(list), old(ids), k, wavBufCount)
      ensures forall i :: 0 <= i < |list| ==> list[i].status == old(list[k + i].status)
      ensures old(DonePrefix()) ==> DonePrefix()
    {
      assert forall i :: finished <= i < |added| ==> added[i] == list[i - finished];
      waveBuf := wb;
      MarkDone(wb, doneList, k);
      Trim(k, count);
    }
  }
}
