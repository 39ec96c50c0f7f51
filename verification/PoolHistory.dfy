/** A pool over its lifetime: any sequence of allocations and frees of live chunks, with list
    nodes that may or may not be available. Every address of the region stays accounted for. */
module PoolHistory {
  import opened Arithmetic
  import opened FreeList

  /** A chunk the pool has given out: still in use, or freed but lost for want of a node. */
  datatype Outstanding = Outstanding(chunk: Chunk, live: bool)

  datatype Pool = Pool(free: seq<Block>, out: seq<Outstanding>)

  datatype Op =
    | Allocate(size: int, align: int, nodeOk: bool)
    | Free(i: nat, nodeOk: bool)

  predicate Enabled(p: Pool, op: Op) {
    match op
    case Allocate(size, _, _) => 0 < size <= UINT32_MAX
    case Free(i, _) => i < |p.out| && p.out[i].live
  }

  function Do(p: Pool, op: Op): Pool
    requires Enabled(p, op)
  {
    match op
    case Allocate(size, align, nodeOk) =>
      var (result, free) := Allocated(p.free, size, align, nodeOk);
      Pool(free, if result.Some? then [Outstanding(result.value, true)] + p.out else p.out)
    case Free(i, nodeOk) =>
      var c := p.out[i].chunk;
      Pool(Deallocated(p.free, c, nodeOk),
           p.out[..i] + (if Kept(p.free, c, nodeOk) then [] else [Outstanding(c, false)]) + p.out[i + 1..])
  }

  predicate ValidRun(p: Pool, ops: seq<Op>)
    decreases |ops|
  {
    ops == [] || (Enabled(p, ops[0]) && ValidRun(Do(p, ops[0]), ops[1..]))
  }

  function Run(p: Pool, ops: seq<Op>): Pool
    requires ValidRun(p, ops)
    decreases |ops|
  {
    if ops == [] then p else Run(Do(p, ops[0]), ops[1..])
  }

  function OutSet(out: seq<Outstanding>): set<int> {
    if out == [] then {} else Addresses(out[0].chunk) + OutSet(out[1..])
  }

  function OutBytes(out: seq<Outstanding>): int {
    if out == [] then 0 else out[0].chunk.size + OutBytes(out[1..])
  }

  /** Chunks are nonempty and no two share an address. */
  predicate Apart(out: seq<Outstanding>) {
    out == [] ||
    (out[0].chunk.size > 0 && Addresses(out[0].chunk) !! OutSet(out[1..]) && Apart(out[1..]))
  }

  /** Free blocks and chunks given out split the region between them. */
  predicate Accounted(p: Pool, lo: int, size: int) {
    && WellFormed(p.free) && Apart(p.out)
    && FreeSet(p.free) !! OutSet(p.out)
    && FreeSet(p.free) + OutSet(p.out) == Range(lo, size)
    && Bytes(p.free) + OutBytes(p.out) == size
  }

  lemma {:induction false} Replace(out: seq<Outstanding>, i: nat, instead: seq<Outstanding>)
    requires Apart(out) && i < |out|
    requires instead == [] || (|instead| == 1 && instead[0].chunk == out[i].chunk)
    ensures var out' := out[..i] + instead + out[i + 1..];
            && Apart(out')
            && OutSet(out') == (if instead == [] then OutSet(out) - Addresses(out[i].chunk) else OutSet(out))
            && OutBytes(out') == OutBytes(out) - (if instead == [] then out[i].chunk.size else 0)
            && Addresses(out[i].chunk) <= OutSet(out) && out[i].chunk.size > 0
  {
    var out' := out[..i] + instead + out[i + 1..];
    if i == 0 {
      assert out' == instead + out[1..];
      if instead == [] {
        assert out' == out[1..];
      } else {
        assert out'[1..] == out[1..];
      }
    } else {
      Replace(out[1..], i - 1, instead);
      assert out[..i][1..] == out[1..][..i - 1] && out[1..][i..] == out[i + 1..];
      assert out'[1..] == out[..i][1..] + instead + out[i + 1..];
      assert out'[0] == out[0];
    }
  }

  lemma AllocateAccounted(p: Pool, op: Op, lo: int, size: int)
    requires Accounted(p, lo, size) && Enabled(p, op) && op.Allocate?
    ensures Accounted(Do(p, op), lo, size)
  {
    if 0 < op.align < 32 {
      var unit := Pow2(op.align);
      RoundedIsNext(op.size, unit);
      TakeEffect(p.free, Rounded(op.size, unit), unit, op.nodeOk);
      var result := Allocated(p.free, op.size, op.align, op.nodeOk).0;
      if result.Some? {
        assert Do(p, op).out[1..] == p.out;
        MoveAcross(FreeSet(p.free), OutSet(p.out), Addresses(result.value));
      }
    }
  }

  lemma FreeAccounted(p: Pool, op: Op, lo: int, size: int)
    requires Accounted(p, lo, size) && Enabled(p, op) && op.Free?
    ensures Accounted(Do(p, op), lo, size)
  {
    var c := p.out[op.i].chunk;
    var kept := Kept(p.free, c, op.nodeOk);
    Replace(p.out, op.i, if kept then [] else [Outstanding(c, false)]);
    DeallocateEffect(p.free, c, op.nodeOk);
    FreedSets(p, c, Do(p, op), kept);
  }

  lemma FreedSets(p: Pool, c: Chunk, p': Pool, kept: bool)
    requires FreeSet(p.free) !! OutSet(p.out) && Addresses(c) <= OutSet(p.out)
    requires FreeSet(p'.free) == if kept then FreeSet(p.free) + Addresses(c) else FreeSet(p.free)
    requires OutSet(p'.out) == if kept then OutSet(p.out) - Addresses(c) else OutSet(p.out)
    ensures FreeSet(p'.free) !! OutSet(p'.out)
    ensures FreeSet(p'.free) + OutSet(p'.out) == FreeSet(p.free) + OutSet(p.out)
  {
  }

  lemma MoveAcross(from: set<int>, to: set<int>, part: set<int>)
    requires from !! to && part <= from
    ensures from - part !! part + to && (from - part) + (part + to) == from + to
    ensures part + to == to + part
  {
  }

  lemma StepAccounted(p: Pool, op: Op, lo: int, size: int)
    requires Accounted(p, lo, size) && Enabled(p, op)
    ensures Accounted(Do(p, op), lo, size)
  {
    if op.Allocate? { AllocateAccounted(p, op, lo, size); } else { FreeAccounted(p, op, lo, size); }
  }

  /** Free bytes plus bytes given out are the region's size, and each address is in exactly one
      place, after any run. */
  lemma {:induction false} RunAccounted(p: Pool, ops: seq<Op>, lo: int, size: int)
    requires Accounted(p, lo, size) && ValidRun(p, ops)
    ensures Accounted(Run(p, ops), lo, size)
    decreases |ops|
  {
    if ops != [] {
      StepAccounted(p, ops[0], lo, size);
      RunAccounted(Do(p, ops[0]), ops[1..], lo, size);
    }
  }

  function Fresh(lo: int, size: int): Pool {
    Pool([Block(lo, size)], [])
  }

  lemma FreshAccounted(lo: int, size: int)
    requires size > 0
    ensures Accounted(Fresh(lo, size), lo, size)
  {
    assert [Block(lo, size)][1..] == [];
  }

  /** Whatever happened in between and in whatever order: once nothing is outstanding, the pool
      is the single original block again. */
  lemma AllFreedRestores(ops: seq<Op>, lo: int, size: int)
    requires size > 0 && ValidRun(Fresh(lo, size), ops) && Run(Fresh(lo, size), ops).out == []
    ensures Run(Fresh(lo, size), ops).free == [Block(lo, size)]
  {
    FreshAccounted(lo, size);
    RunAccounted(Fresh(lo, size), ops, lo, size);
    Canonical(Run(Fresh(lo, size), ops).free, [Block(lo, size)]);
  }

  predicate NodesAvailable(ops: seq<Op>) {
    forall i :: 0 <= i < |ops| && ops[i].Free? ==> ops[i].nodeOk
  }

  /** Memory is lost only when freeing finds no list node. */
  lemma {:induction false} NothingLost(p: Pool, ops: seq<Op>)
    requires ValidRun(p, ops) && NodesAvailable(ops)
    requires forall i :: 0 <= i < |p.out| ==> p.out[i].live
    ensures forall i :: 0 <= i < |Run(p, ops).out| ==> Run(p, ops).out[i].live
    decreases |ops|
  {
    if ops != [] {
      assert forall i :: 0 <= i < |ops[1..]| ==> ops[1..][i] == ops[i + 1];
      NothingLost(Do(p, ops[0]), ops[1..]);
    }
  }
}
