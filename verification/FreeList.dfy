/** What the memory pool's operations do to the list of free blocks, as functions on
    sequences, and the theorems about them: the list is a canonical form of the set of
    free addresses, allocation is exact first fit, and nothing is lost or handed out twice. */
module FreeList {
  import opened Arithmetic

  datatype Block = Block(base: int, size: int)
  datatype Chunk = Chunk(addr: int, size: int)
  datatype Option<T> = None | Some(value: T)

  const UINT32_MAX := 0xFFFF_FFFF

  function End(b: Block): int {
    b.base + b.size
  }

  predicate Within(a: int, lo: int, size: int) {
    lo <= a < lo + size
  }

  function Range(lo: int, size: int): set<int> {
    set a | lo <= a < lo + size && Within(a, lo, size)
  }

  function Addresses(c: Chunk): set<int> {
    Range(c.addr, c.size)
  }

  function FreeSet(bs: seq<Block>): set<int> {
    if bs == [] then {} else Range(bs[0].base, bs[0].size) + FreeSet(bs[1..])
  }

  function Bytes(bs: seq<Block>): int {
    if bs == [] then 0 else bs[0].size + Bytes(bs[1..])
  }

  /** Nonempty blocks in address order that neither overlap nor touch. */
  predicate WellFormed(bs: seq<Block>) {
    bs == [] ||
    (bs[0].size > 0 && WellFormed(bs[1..]) && (|bs| > 1 ==> End(bs[0]) < bs[1].base))
  }

  /** Bytes to skip to reach the next multiple of the unit. */
  function Waste(addr: int, unit: int): (w: int)
    requires unit > 0
    ensures 0 <= w < unit
  {
    if addr % unit == 0 then 0 else unit - addr % unit
  }

  lemma WasteIsLeast(addr: int, unit: int)
    requires unit > 0
    ensures (addr + Waste(addr, unit)) % unit == 0
    ensures forall a {:trigger a % unit} :: a >= addr && a % unit == 0 ==> a >= addr + Waste(addr, unit)
  {
    var q, r := addr / unit, addr % unit;
    var w := Waste(addr, unit);
    assert addr == unit * q + r;
    if r != 0 {
      assert addr + w == unit * (q + 1) + 0;
      DivModUnique(addr + w, unit, q + 1, 0);
      forall a | a >= addr && a % unit == 0 ensures a >= addr + w {
        assert a == unit * (a / unit);
        MulMonotone(unit, a / unit, q);
        MulMonotone(unit, q + 1, a / unit);
      }
    }
  }

  /** A size padded to a multiple of the unit. */
  function Rounded(size: int, unit: int): int
    requires unit > 0
  {
    if size % unit != 0 then (size + unit - 1) / unit * unit else size
  }

  /** Padding goes to the next multiple and no further. */
  lemma RoundedIsNext(size: int, unit: int)
    requires unit > 0
    ensures Rounded(size, unit) == size + Waste(size, unit)
  {
    var q, r := size / unit, size % unit;
    assert size == unit * q + r;
    if r != 0 {
      assert size + unit - 1 == unit * (q + 1) + (r - 1);
      DivModUnique(size + unit - 1, unit, q + 1, r - 1);
      assert (q + 1) * unit == unit * (q + 1);
    }
  }

  // The operations.

  /** Whether a block has room at its first aligned address. */
  predicate HasRoom(b: Block, size: int, unit: int)
    requires unit > 0
  {
    Waste(b.base, unit) <= b.size && b.size - Waste(b.base, unit) >= size
  }

  /** What is left of a block when a chunk is cut from it. `nodeOk` says whether a list node
      for the tail can be created; if not, the tail goes with the chunk. */
  function Cut(b: Block, size: int, unit: int, nodeOk: bool): (Chunk, seq<Block>)
    requires unit > 0 && HasRoom(b, size, unit)
  {
    var waste := Waste(b.base, unit);
    var addr := b.base + waste;
    var tail := b.size - waste - size;
    if waste == 0 then
      (Chunk(addr, size), if tail == 0 then [] else [Block(addr + size, tail)])
    else if tail == 0 then
      (Chunk(addr, size), [Block(b.base, waste)])
    else if nodeOk then
      (Chunk(addr, size), [Block(b.base, waste), Block(addr + size, tail)])
    else
      (Chunk(addr, size + tail), [Block(b.base, waste)])
  }

  function TakeFirst(bs: seq<Block>, size: int, unit: int, nodeOk: bool): (Option<Chunk>, seq<Block>)
    requires unit > 0
  {
    if bs == [] then (None, bs)
    else if HasRoom(bs[0], size, unit) then
      var (chunk, left) := Cut(bs[0], size, unit, nodeOk);
      (Some(chunk), left + bs[1..])
    else
      var (result, rest) := TakeFirst(bs[1..], size, unit, nodeOk);
      (result, [bs[0]] + rest)
  }

  /** MemPool::Allocate, for a shift `align`. */
  function Allocated(bs: seq<Block>, size: int, align: int, nodeOk: bool): (Option<Chunk>, seq<Block>) {
    if align >= 32 || align <= 0 then (None, bs)
    else
      var unit := Pow2(align);
      if size % unit != 0 && size > UINT32_MAX - (unit - 1) then (None, bs)
      else TakeFirst(bs, Rounded(size, unit), unit, nodeOk)
  }

  /** Absorb the blocks that start where this one ends. */
  function Coalesced(b: Block, rest: seq<Block>): seq<Block>
    decreases |rest|
  {
    if rest != [] && rest[0].base == End(b) then Coalesced(Block(b.base, b.size + rest[0].size), rest[1..])
    else [b] + rest
  }

  /** MemPool::Deallocate. Without a node for it, a chunk that touches no block is lost. */
  function Deallocated(bs: seq<Block>, c: Chunk, nodeOk: bool): seq<Block> {
    if bs == [] then
      if nodeOk then [Block(c.addr, c.size)] else bs
    else if bs[0].base > c.addr then
      if c.addr + c.size == bs[0].base then [Block(c.addr, bs[0].size + c.size)] + bs[1..]
      else if nodeOk then [Block(c.addr, c.size)] + bs
      else bs
    else if End(bs[0]) == c.addr then
      Coalesced(Block(bs[0].base, bs[0].size + c.size), bs[1..])
    else
      [bs[0]] + Deallocated(bs[1..], c, nodeOk)
  }

  // The list is a canonical form.

  lemma {:induction false} FreeBounds(bs: seq<Block>)
    requires WellFormed(bs)
    ensures forall a :: a in FreeSet(bs) ==> bs != [] && a >= bs[0].base
    ensures bs != [] ==> bs[0].base in FreeSet(bs) && End(bs[0]) !in FreeSet(bs)
    ensures bs != [] ==> forall a :: a in FreeSet(bs[1..]) ==> a > End(bs[0])
  {
    if bs != [] {
      FreeBounds(bs[1..]);
    }
  }

  /** Two well-formed lists with the same free addresses are the same list. */
  lemma {:induction false} Canonical(x: seq<Block>, y: seq<Block>)
    requires WellFormed(x) && WellFormed(y) && FreeSet(x) == FreeSet(y)
    ensures x == y
  {
    FreeBounds(x);
    FreeBounds(y);
    if x != [] && y != [] {
      var b, c := x[0], y[0];
      assert b.base == c.base;
      assert End(b) < End(c) ==> End(b) in Range(c.base, c.size);
      assert End(c) < End(b) ==> End(c) in Range(b.base, b.size);
      assert FreeSet(x[1..]) == FreeSet(x) - Range(x[0].base, x[0].size);
      assert FreeSet(y[1..]) == FreeSet(y) - Range(y[0].base, y[0].size);
      Canonical(x[1..], y[1..]);
      assert x == [x[0]] + x[1..] && y == [y[0]] + y[1..];
    }
  }

  // Allocation is first fit, exactly.

  /** An aligned address at which the size lies wholly in free memory. */
  predicate Fits(bs: seq<Block>, a: int, size: int, unit: int)
    requires unit > 0
  {
    a % unit == 0 && Range(a, size) <= FreeSet(bs)
  }

  /** Blocks do not touch, so a free interval lies in one block. */
  lemma IntervalInHeadOrTail(bs: seq<Block>, a: int, size: int)
    requires WellFormed(bs) && bs != [] && size > 0 && Range(a, size) <= FreeSet(bs)
    ensures (bs[0].base <= a && a + size <= End(bs[0])) || Range(a, size) <= FreeSet(bs[1..])
  {
    FreeBounds(bs);
    assert a in Range(a, size);
    var end := End(bs[0]);
    if a <= end {
      assert a + size > end ==> end in Range(a, size);
    } else {
      assert Range(a, size) !! Range(bs[0].base, bs[0].size);
    }
  }

  lemma {:induction false} FirstFit(bs: seq<Block>, size: int, unit: int, nodeOk: bool)
    requires WellFormed(bs) && size > 0 && unit > 0
    ensures match TakeFirst(bs, size, unit, nodeOk).0
            case None => forall a :: !Fits(bs, a, size, unit)
            case Some(c) => Fits(bs, c.addr, size, unit) && forall a :: Fits(bs, a, size, unit) ==> c.addr <= a
  {
    assert forall a :: a in Range(a, size);
    if bs != [] {
      var b := bs[0];
      if HasRoom(b, size, unit) {
        FreeBounds(bs);
        var first := b.base + Waste(b.base, unit);
        WasteIsLeast(b.base, unit);
        assert Range(first, size) <= Range(b.base, b.size);
        forall a | Fits(bs, a, size, unit) ensures first <= a {
          assert a in Range(a, size);
        }
      } else {
        FirstFit(bs[1..], size, unit, nodeOk);
        WasteIsLeast(b.base, unit);
        forall a | Fits(bs, a, size, unit) ensures Fits(bs[1..], a, size, unit) {
          IntervalInHeadOrTail(bs, a, size);
        }
      }
    }
  }

  // What the operations do to the set of free addresses and to the bytes in it.

  lemma Prepend(b: Block, rest: seq<Block>)
    requires b.size > 0 && WellFormed(rest) && (rest != [] ==> End(b) < rest[0].base)
    ensures WellFormed([b] + rest)
    ensures FreeSet([b] + rest) == Range(b.base, b.size) + FreeSet(rest)
    ensures Bytes([b] + rest) == b.size + Bytes(rest)
  {
    assert ([b] + rest)[1..] == rest;
  }

  lemma RangeSplit(lo: int, n1: int, n2: int, n3: int)
    requires n1 >= 0 && n2 >= 0 && n3 >= 0
    ensures Range(lo, n1 + n2 + n3) == Range(lo, n1) + Range(lo + n1, n2) + Range(lo + n1 + n2, n3)
    ensures Range(lo, n1) !! Range(lo + n1, n2) !! Range(lo + n1 + n2, n3)
  {
  }

  /** The list after a cut, as the pieces before and after the chunk. */
  lemma CutPieces(b: Block, rest: seq<Block>, size: int, unit: int, nodeOk: bool) returns (n1: int, n3: int)
    requires b.size > 0 && size > 0 && unit > 0 && HasRoom(b, size, unit)
    requires WellFormed(rest) && (rest != [] ==> End(b) < rest[0].base)
    ensures var (c, left) := Cut(b, size, unit, nodeOk);
            && n1 >= 0 && n3 >= 0 && c.addr == b.base + n1 && n1 + c.size + n3 == b.size
            && c.size >= size && (nodeOk ==> c.size == size)
            && WellFormed(left + rest)
            && (left + rest != [] ==> (left + rest)[0].base >= b.base)
            && FreeSet(left + rest) == Range(b.base, n1) + Range(c.addr + c.size, n3) + FreeSet(rest)
            && Bytes(left + rest) == n1 + n3 + Bytes(rest)
  {
    var (c, left) := Cut(b, size, unit, nodeOk);
    n1, n3 := c.addr - b.base, End(b) - (c.addr + c.size);
    var head, tail := Block(b.base, n1), Block(c.addr + c.size, n3);
    var after := if n3 == 0 then rest else [tail] + rest;
    if n3 > 0 {
      Prepend(tail, rest);
    }
    if n1 > 0 {
      Prepend(head, after);
    }
    assert left + rest == if n1 == 0 then after else [head] + after;
  }

  lemma CutEffect(bs: seq<Block>, size: int, unit: int, nodeOk: bool)
    requires WellFormed(bs) && bs != [] && size > 0 && unit > 0 && HasRoom(bs[0], size, unit)
    ensures var (c, left) := Cut(bs[0], size, unit, nodeOk);
            && FreeSet(left + bs[1..]) == FreeSet(bs) - Addresses(c)
            && Addresses(c) <= FreeSet(bs)
            && Bytes(left + bs[1..]) == Bytes(bs) - c.size
  {
    var (c, left) := Cut(bs[0], size, unit, nodeOk);
    var n1, n3 := CutPieces(bs[0], bs[1..], size, unit, nodeOk);
    RangeSplit(bs[0].base, n1, c.size, n3);
    HeadApart(bs);
    RemoveMiddle(Range(bs[0].base, n1), Addresses(c), Range(c.addr + c.size, n3), FreeSet(bs[1..]));
  }

  lemma HeadApart(bs: seq<Block>)
    requires WellFormed(bs) && bs != []
    ensures Range(bs[0].base, bs[0].size) !! FreeSet(bs[1..])
  {
    FreeBounds(bs);
  }

  lemma RemoveMiddle(left: set<int>, middle: set<int>, right: set<int>, others: set<int>)
    requires left !! middle !! right && left + middle + right !! others
    ensures left + right + others == left + middle + right + others - middle
  {
  }

  lemma {:induction false} TakeEffect(bs: seq<Block>, size: int, unit: int, nodeOk: bool)
    requires WellFormed(bs) && size > 0 && unit > 0
    ensures var (result, bs') := TakeFirst(bs, size, unit, nodeOk);
            match result
            case None => bs' == bs
            case Some(c) =>
              && WellFormed(bs') && (bs' != [] ==> bs'[0].base >= bs[0].base)
              && FreeSet(bs') == FreeSet(bs) - Addresses(c)
              && Addresses(c) <= FreeSet(bs)
              && Bytes(bs') == Bytes(bs) - c.size
              && c.size >= size && (nodeOk ==> c.size == size)
  {
    if bs != [] {
      if HasRoom(bs[0], size, unit) {
        var n1, n3 := CutPieces(bs[0], bs[1..], size, unit, nodeOk);
        CutEffect(bs, size, unit, nodeOk);
      } else {
        TakeEffect(bs[1..], size, unit, nodeOk);
        FreeBounds(bs);
        var (result, rest) := TakeFirst(bs[1..], size, unit, nodeOk);
        assert [bs[0]] + bs[1..] == bs;
        if result.Some? {
          Prepend(bs[0], rest);
          assert Addresses(result.value) !! Range(bs[0].base, bs[0].size);
        }
      }
    }
  }

  lemma {:induction false} CoalesceEffect(b: Block, rest: seq<Block>)
    requires b.size > 0 && WellFormed(rest) && (rest != [] ==> End(b) <= rest[0].base)
    ensures var bs := Coalesced(b, rest);
            && bs != [] && WellFormed(bs) && bs[0].base == b.base
            && FreeSet(bs) == Range(b.base, b.size) + FreeSet(rest)
            && Bytes(bs) == b.size + Bytes(rest)
    decreases |rest|
  {
    if rest != [] && rest[0].base == End(b) {
      var joined := Block(b.base, b.size + rest[0].size);
      CoalesceEffect(joined, rest[1..]);
      assert Range(joined.base, joined.size) == Range(b.base, b.size) + Range(rest[0].base, rest[0].size);
    } else {
      Prepend(b, rest);
    }
  }

  /** Whether the chunk touches a free block, so that it can be merged into it. */
  predicate Touches(bs: seq<Block>, c: Chunk) {
    bs != [] && (End(bs[0]) == c.addr || c.addr + c.size == bs[0].base || Touches(bs[1..], c))
  }

  /** Whether a freed chunk becomes free memory again: it needs a list node unless it merges. */
  predicate Kept(bs: seq<Block>, c: Chunk, nodeOk: bool) {
    nodeOk || Touches(bs, c)
  }

  lemma {:induction false} NothingTouchedAbove(bs: seq<Block>, c: Chunk)
    requires WellFormed(bs) && c.size > 0 && (bs != [] ==> c.addr + c.size < bs[0].base)
    ensures !Touches(bs, c)
  {
    if bs != [] {
      NothingTouchedAbove(bs[1..], c);
    }
  }

  /** The list has become bs', with the chunk's addresses free if it was kept. */
  predicate Freed(bs: seq<Block>, c: Chunk, bs': seq<Block>, kept: bool) {
    && WellFormed(bs')
    && (bs' != [] ==> bs'[0].base >= c.addr || (bs != [] && bs'[0].base >= bs[0].base))
    && if kept then FreeSet(bs') == FreeSet(bs) + Addresses(c) && Bytes(bs') == Bytes(bs) + c.size
       else bs' == bs
  }

  lemma {:induction false} DeallocateEffect(bs: seq<Block>, c: Chunk, nodeOk: bool)
    requires WellFormed(bs) && c.size > 0 && Addresses(c) !! FreeSet(bs)
    ensures Freed(bs, c, Deallocated(bs, c, nodeOk), Kept(bs, c, nodeOk))
  {
    if bs == [] {
      Prepend(Block(c.addr, c.size), []);
      assert [Block(c.addr, c.size)] + [] == [Block(c.addr, c.size)];
    } else if bs[0].base > c.addr {
      PlaceBefore(bs, c);
    } else {
      PassOver(bs, c);
      if End(bs[0]) == c.addr {
        MergeRight(bs, c);
      } else {
        DeallocateEffect(bs[1..], c, nodeOk);
        FreedFurtherOn(bs, c, Deallocated(bs[1..], c, nodeOk), Kept(bs[1..], c, nodeOk));
      }
    }
  }

  lemma PassOver(bs: seq<Block>, c: Chunk)
    requires WellFormed(bs) && bs != [] && c.size > 0 && Addresses(c) !! FreeSet(bs) && bs[0].base <= c.addr
    ensures End(bs[0]) <= c.addr && Addresses(c) !! FreeSet(bs[1..])
    ensures c.addr + c.size != bs[0].base
  {
    var b := bs[0];
    assert c.addr in Addresses(c);
    assert c.addr < End(b) ==> c.addr in Range(b.base, b.size);
  }

  lemma FreedFurtherOn(bs: seq<Block>, c: Chunk, rest: seq<Block>, kept: bool)
    requires WellFormed(bs) && bs != [] && End(bs[0]) < c.addr && Freed(bs[1..], c, rest, kept)
    ensures Freed(bs, c, [bs[0]] + rest, kept)
  {
    Prepend(bs[0], rest);
    assert bs == [bs[0]] + bs[1..];
  }

  lemma PlaceBefore(bs: seq<Block>, c: Chunk)
    requires WellFormed(bs) && bs != [] && c.size > 0 && Addresses(c) !! FreeSet(bs) && bs[0].base > c.addr
    ensures if c.addr + c.size == bs[0].base
            then Freed(bs, c, [Block(c.addr, bs[0].size + c.size)] + bs[1..], true)
            else Freed(bs, c, [Block(c.addr, c.size)] + bs, true) && !Touches(bs, c)
  {
    var b, rest := bs[0], bs[1..];
    FreeBounds(bs);
    assert c.addr + c.size > b.base ==> b.base in Addresses(c);
    if c.addr + c.size == b.base {
      Prepend(Block(c.addr, b.size + c.size), rest);
      assert Range(c.addr, b.size + c.size) == Addresses(c) + Range(b.base, b.size);
    } else {
      NothingTouchedAbove(bs, c);
      Prepend(Block(c.addr, c.size), bs);
    }
  }

  lemma MergeRight(bs: seq<Block>, c: Chunk)
    requires WellFormed(bs) && bs != [] && c.size > 0 && End(bs[0]) == c.addr && Addresses(c) !! FreeSet(bs[1..])
    ensures Freed(bs, c, Coalesced(Block(bs[0].base, bs[0].size + c.size), bs[1..]), true)
  {
    var b, rest := bs[0], bs[1..];
    if rest != [] {
      FreeBounds(rest);
      var next := rest[0].base;
      assert next < c.addr + c.size ==> next in Addresses(c);
    }
    CoalesceEffect(Block(b.base, b.size + c.size), rest);
    RangeJoin(b.base, b.size, c.size);
  }

  lemma RangeJoin(lo: int, n1: int, n2: int)
    requires n1 >= 0 && n2 >= 0
    ensures Range(lo, n1 + n2) == Range(lo, n1) + Range(lo + n1, n2)
  {
  }

  /** Freeing a chunk right after allocating it gives back the very same list. */
  lemma AllocateThenDeallocate(bs: seq<Block>, size: int, align: int, nodeOk: bool, nodeOk': bool)
    requires WellFormed(bs) && size > 0
    ensures var (result, bs') := Allocated(bs, size, align, nodeOk);
            result.Some? && Kept(bs', result.value, nodeOk') ==> Deallocated(bs', result.value, nodeOk') == bs
  {
    var (result, bs') := Allocated(bs, size, align, nodeOk);
    if result.Some? {
      RoundedIsNext(size, Pow2(align));
      TakeEffect(bs, Rounded(size, Pow2(align)), Pow2(align), nodeOk);
      DeallocateEffect(bs', result.value, nodeOk');
      if Kept(bs', result.value, nodeOk') {
        Canonical(Deallocated(bs', result.value, nodeOk'), bs);
      }
    }
  }

  // Exactness of Allocate itself, with its guard against 32-bit overflow.

  lemma {:induction false} Pow2Divides(align: nat, k: nat)
    requires align <= k
    ensures Pow2(k) == Pow2(align) * Pow2(k - align)
  {
    if align < k {
      Pow2Divides(align, k - 1);
      assert Pow2(k) == 2 * Pow2(k - 1);
    }
  }

  lemma Pow2Is32Bits()
    ensures Pow2(32) == UINT32_MAX + 1
  {
    assert Pow2(8) == 256;
    Pow2Divides(8, 16);
    Pow2Divides(16, 32);
  }

  lemma MultipleBelow(r: int, unit: int, n: int)
    requires unit > 0 && r % unit == 0 && r < unit * n
    ensures r <= unit * n - unit
  {
    assert r == unit * (r / unit);
    MulMonotone(unit, n, r / unit);
    MulMonotone(unit, r / unit, n - 1);
    assert unit * (n - 1) == unit * n - unit;
  }

  lemma LastMultiple(unit: int, n: int)
    requires unit > 0
    ensures (unit * n - unit) % unit == 0
  {
    assert unit * n - unit == unit * (n - 1) + 0;
    DivModUnique(unit * n - unit, unit, n - 1, 0);
  }

  /** The guard refuses exactly the sizes that would not round to a 32-bit value. */
  lemma GuardIsExact(size: int, align: int)
    requires 0 < size <= UINT32_MAX && 0 < align < 32
    ensures var unit := Pow2(align);
            size % unit != 0 && size > UINT32_MAX - (unit - 1) <==> Rounded(size, unit) > UINT32_MAX
  {
    var unit, n := Pow2(align), Pow2(32 - align);
    Pow2Is32Bits();
    Pow2Divides(align, 32);
    RoundedIsNext(size, unit);
    WasteIsLeast(size, unit);
    var r := Rounded(size, unit);
    if r <= UINT32_MAX {
      MultipleBelow(r, unit, n);
    } else if size % unit != 0 {
      LastMultiple(unit, n);
      var top := UINT32_MAX + 1 - unit;
      assert top % unit == 0 && top < r;
    }
  }

  /** Without a list node for it, what lies behind the chunk goes with the chunk when there is
      free memory on both sides of it. */
  predicate SizeIs(c: Chunk, size: int, free: set<int>, nodeOk: bool) {
    if !nodeOk && c.addr - 1 in free && c.addr + size in free then c.size > size && c.addr + c.size !in free
    else c.size == size
  }

  lemma CutSize(bs: seq<Block>, size: int, unit: int, nodeOk: bool)
    requires WellFormed(bs) && bs != [] && size > 0 && unit > 0 && HasRoom(bs[0], size, unit)
    ensures var c := Cut(bs[0], size, unit, nodeOk).0; c.addr >= bs[0].base && SizeIs(c, size, FreeSet(bs), nodeOk)
  {
    var c, b := Cut(bs[0], size, unit, nodeOk).0, bs[0];
    FreeBounds(bs);
    assert forall a :: a in Range(b.base, b.size) <==> b.base <= a < End(b);
    assert c.addr - 1 in FreeSet(bs) <==> c.addr > b.base;
    assert c.addr + size in FreeSet(bs) <==> c.addr + size < End(b);
  }

  lemma {:induction false} TakeSize(bs: seq<Block>, size: int, unit: int, nodeOk: bool)
    requires WellFormed(bs) && size > 0 && unit > 0
    ensures match TakeFirst(bs, size, unit, nodeOk).0
            case None => true
            case Some(c) => c.addr >= bs[0].base && SizeIs(c, size, FreeSet(bs), nodeOk)
  {
    if bs != [] {
      if HasRoom(bs[0], size, unit) {
        CutSize(bs, size, unit, nodeOk);
      } else {
        TakeSize(bs[1..], size, unit, nodeOk);
        FreeBounds(bs);
        var result := TakeFirst(bs[1..], size, unit, nodeOk).0;
        if result.Some? {
          SameBehind(bs, result.value.addr - 1);
          SameBehind(bs, result.value.addr + size);
          SameBehind(bs, result.value.addr + result.value.size);
        }
      }
    }
  }

  lemma SameBehind(bs: seq<Block>, a: int)
    requires WellFormed(bs) && |bs| > 1 && a >= bs[1].base - 1
    ensures a in FreeSet(bs) <==> a in FreeSet(bs[1..])
  {
    assert a !in Range(bs[0].base, bs[0].size);
  }

  /** Allocate finds the lowest aligned address with the rounded size free from it on, and
      fails exactly when there is none (or the shift is not a valid alignment). */
  lemma AllocateExact(bs: seq<Block>, size: int, align: int, nodeOk: bool)
    requires WellFormed(bs) && FreeSet(bs) <= Range(0, UINT32_MAX) && 0 < size <= UINT32_MAX
    ensures var (result, bs') := Allocated(bs, size, align, nodeOk);
            if 0 < align < 32 then
              var unit, rounded := Pow2(align), Rounded(size, Pow2(align));
              match result
              case None => bs' == bs && forall a :: !Fits(bs, a, rounded, unit)
              case Some(c) =>
                && Fits(bs, c.addr, rounded, unit) && (forall a :: Fits(bs, a, rounded, unit) ==> c.addr <= a)
                && SizeIs(c, rounded, FreeSet(bs), nodeOk)
                && Addresses(c) <= FreeSet(bs) && FreeSet(bs') == FreeSet(bs) - Addresses(c)
                && WellFormed(bs')
            else result == None && bs' == bs
  {
    if 0 < align < 32 {
      var unit, rounded := Pow2(align), Rounded(size, Pow2(align));
      GuardIsExact(size, align);
      RoundedIsNext(size, unit);
      if size % unit != 0 && size > UINT32_MAX - (unit - 1) {
        forall a ensures !Fits(bs, a, rounded, unit) {
          assert a in Range(a, rounded);
          assert a + rounded - 1 in Range(a, rounded);
          assert a + rounded - 1 !in Range(0, UINT32_MAX) || a !in Range(0, UINT32_MAX);
        }
      } else {
        FirstFit(bs, rounded, unit, nodeOk);
        TakeEffect(bs, rounded, unit, nodeOk);
        TakeSize(bs, rounded, unit, nodeOk);
      }
    }
  }

  // A request for nothing. The pool accepts it, and may then split a block into two that touch.

  function FirstWithRoom(bs: seq<Block>, size: int, unit: int): Option<Block>
    requires unit > 0
  {
    if bs == [] then None
    else if HasRoom(bs[0], size, unit) then Some(bs[0])
    else FirstWithRoom(bs[1..], size, unit)
  }

  lemma {:induction false} EmptyCut(bs: seq<Block>, unit: int, nodeOk: bool)
    requires WellFormed(bs) && unit > 0
    ensures var first := FirstWithRoom(bs, 0, unit);
            WellFormed(TakeFirst(bs, 0, unit, nodeOk).1)
            <==> !(first.Some? && nodeOk && 0 < Waste(first.value.base, unit) < first.value.size)
    ensures TakeFirst(bs, 0, unit, nodeOk).1 != [] ==>
              bs != [] && TakeFirst(bs, 0, unit, nodeOk).1[0].base == bs[0].base
    ensures bs != [] ==> TakeFirst(bs, 0, unit, nodeOk).1 != []
  {
    if bs != [] {
      var after := TakeFirst(bs, 0, unit, nodeOk).1;
      if HasRoom(bs[0], 0, unit) {
        var left := Cut(bs[0], 0, unit, nodeOk).1;
        assert after == left + bs[1..];
        assert after[1..] == left[1..] + bs[1..];
        if |left| == 2 {
          assert after[1] == left[1];
        }
        if |left| == 1 {
          assert after[1..] == bs[1..];
        }
      } else {
        EmptyCut(bs[1..], unit, nodeOk);
        assert after[1..] == TakeFirst(bs[1..], 0, unit, nodeOk).1;
      }
    }
  }

  /** Whether the search of a request for zero bytes ends inside a block, past its base. */
  predicate EndsInside(bs: seq<Block>, unit: int)
    requires unit > 0
  {
    var first := FirstWithRoom(bs, 0, unit);
    first.Some? && 0 < Waste(first.value.base, unit) < first.value.size
  }

  /** A request for zero bytes leaves a well-formed list exactly when its search does not end
      inside a block, or no node can be had; else it leaves two blocks that touch. */
  lemma EmptyRequest(bs: seq<Block>, align: int, nodeOk: bool)
    requires WellFormed(bs)
    ensures WellFormed(Allocated(bs, 0, align, nodeOk).1) <==>
            !(0 < align < 32 && nodeOk && EndsInside(bs, Pow2(align)))
  {
    if 0 < align < 32 {
      var unit := Pow2(align);
      EmptyCut(bs, unit, nodeOk);
      DivModUnique(0, unit, 0, 0);
      RoundedIsNext(0, unit);
    }
  }

  /** Such a request: a block of 24 bytes at 8, aligned to 16. */
  lemma EmptyRequestSplits()
    ensures Allocated([Block(8, 24)], 0, 4, true) == (Some(Chunk(16, 0)), [Block(8, 8), Block(16, 16)])
    ensures WellFormed([Block(8, 24)]) && !WellFormed([Block(8, 8), Block(16, 16)])
  {
    assert Pow2(4) == 16;
    var split := [Block(8, 8), Block(16, 16)];
    assert Rounded(0, 16) == 0 && Waste(8, 16) == 8;
    assert Cut(Block(8, 24), 0, 16, true) == (Chunk(16, 0), split);
    var bs := [Block(8, 24)];
    assert HasRoom(bs[0], 0, 16);
    assert split + bs[1..] == split;
    assert TakeFirst(bs, 0, 16, true) == (Some(Chunk(16, 0)), split);
    assert split[1..] == [Block(16, 16)];
  }
}
