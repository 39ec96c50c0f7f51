/** The memory pool itself: a doubly linked list of blocks, changed in place. Each method is
    proved against the corresponding function on the sequence of blocks. */
module MemPool {
  import opened Arithmetic
  import opened FreeList

  class MemBlock {
    var prev: MemBlock?
    var next: MemBlock?
    var base: int
    var size: int

    constructor Create(base: int, size: int)
      ensures prev == null && next == null && this.base == base && this.size == size
    {
      prev, next := null, null;
      this.base, this.size := base, size;
    }
  }

  class Pool {
    var first: MemBlock?
    var last: MemBlock?
    ghost var nodes: seq<MemBlock>   // the list, first to last
    ghost var contents: seq<Block>   // what the nodes hold

    ghost predicate NodeAt(i: nat)
      requires i < |nodes| == |contents|
      reads this, nodes
    {
      && nodes[i].prev == (if i == 0 then null else nodes[i - 1])
      && nodes[i].next == (if i == |nodes| - 1 then null else nodes[i + 1])
      && contents[i] == Block(nodes[i].base, nodes[i].size)
    }

    ghost predicate Valid()
      reads this, nodes
    {
      && |nodes| == |contents|
      && (forall i, j :: 0 <= i < j < |nodes| ==> nodes[i] != nodes[j])
      && first == (if nodes == [] then null else nodes[0])
      && last == (if nodes == [] then null else nodes[|nodes| - 1])
      && forall i :: 0 <= i < |nodes| ==> NodeAt(i)
    }

    constructor ()
      ensures Valid() && nodes == [] && contents == []
    {
      first, last, nodes, contents := null, null, [], [];
    }

    method AddBlock(blk: MemBlock)
      requires Valid() && blk !in nodes && blk.next == null
      modifies this, nodes`next, blk`prev
      ensures Valid() && nodes == old(nodes) + [blk]
      ensures contents == old(contents) + [Block(old(blk.base), old(blk.size))]
    {
      blk.prev := last;
      if last != null { last.next := blk; }
      if first == null { first := blk; }
      last := blk;
      nodes, contents := nodes + [blk], contents + [Block(blk.base, blk.size)];
      forall i | 0 <= i < |nodes| ensures NodeAt(i) {
        if i < |nodes| - 1 { assert old(NodeAt(i)); }
      }
    }

    method DelBlock(b: MemBlock, ghost k: nat)
      requires Valid() && k < |nodes| && nodes[k] == b
      modifies this
      modifies (if k > 0 then {nodes[k - 1]} else {})`next
      modifies (if k + 1 < |nodes| then {nodes[k + 1]} else {})`prev
      ensures Valid() && nodes == old(nodes[..k] + nodes[k + 1..])
      ensures contents == old(contents[..k] + contents[k + 1..])
    {
      assert NodeAt(k);
      var prev, next := b.prev, b.next;
      assert prev != null ==> k > 0;
      if prev != null { prev.next := next; } else { first := next; }
      if next != null { next.prev := prev; } else { last := prev; }
      nodes, contents := nodes[..k] + nodes[k + 1..], contents[..k] + contents[k + 1..];
      forall i | 0 <= i < |nodes| ensures NodeAt(i) {
        assert old(NodeAt(if i < k then i else i + 1));
      }
    }

    method InsertBefore(b: MemBlock, p: MemBlock, ghost k: nat)
      requires Valid() && k < |nodes| && nodes[k] == b && p !in nodes
      modifies this, nodes`prev, nodes`next, p`prev, p`next
      ensures Valid() && nodes == old(nodes[..k] + [p] + nodes[k..])
      ensures contents == old(contents[..k] + [Block(p.base, p.size)] + contents[k..])
    {
      assert NodeAt(k);
      var prev := b.prev;
      b.prev := p;
      p.next := b;
      p.prev := prev;
      if prev != null { prev.next := p; } else { first := p; }
      nodes, contents := nodes[..k] + [p] + nodes[k..], contents[..k] + [Block(p.base, p.size)] + contents[k..];
      forall i | 0 <= i < |nodes| ensures NodeAt(i) {
        if i != k { assert old(NodeAt(if i < k then i else i - 1)); }
      }
    }

    method InsertAfter(b: MemBlock, n: MemBlock, ghost k: nat)
      requires Valid() && k < |nodes| && nodes[k] == b && n !in nodes
      modifies this, nodes`prev, nodes`next, n`prev, n`next
      ensures Valid() && nodes == old(nodes[..k + 1] + [n] + nodes[k + 1..])
      ensures contents == old(contents[..k + 1] + [Block(n.base, n.size)] + contents[k + 1..])
    {
      assert NodeAt(k);
      var next := b.next;
      b.next := n;
      n.prev := b;
      n.next := next;
      if next != null { next.prev := n; } else { last := n; }
      nodes := nodes[..k + 1] + [n] + nodes[k + 1..];
      contents := contents[..k + 1] + [Block(n.base, n.size)] + contents[k + 1..];
      forall i | 0 <= i < |nodes| ensures NodeAt(i) {
        if i != k + 1 { assert old(NodeAt(if i <= k then i else i - 1)); }
      }
    }

    /** Changes of a block's base and size. */
    method Resize(b: MemBlock, base: int, size: int, ghost k: nat)
      requires Valid() && k < |nodes| && nodes[k] == b
      modifies this`contents, b`base, b`size
      ensures Valid() && contents == old(contents)[k := Block(base, size)]
      ensures b.base == base && b.size == size
    {
      b.base, b.size := base, size;
      contents := contents[k := Block(base, size)];
      forall i | 0 <= i < |nodes| ensures NodeAt(i) {
        assert old(NodeAt(i));
      }
    }

    /** What the node at a list position says. */
    lemma NodeSays(k: nat)
      requires Valid() && k < |nodes|
      ensures nodes[k].next == (if k + 1 < |nodes| then nodes[k + 1] else null)
      ensures contents[k] == Block(nodes[k].base, nodes[k].size)
    {
      assert NodeAt(k);
    }

    method GetFreeSpace() returns (acc: int)
      requires Valid()
      ensures acc == Bytes(contents)
    {
      acc := 0;
      var b := first;
      ghost var k := 0;
      while b != null
        invariant k <= |nodes| && b == (if k < |nodes| then nodes[k] else null)
        invariant acc + Bytes(contents[k..]) == Bytes(contents)
        decreases |nodes| - k
      {
        NodeSays(k);
        acc := acc + b.size;
        assert contents[k..][1..] == contents[k + 1..];
        b := b.next;
        k := k + 1;
      }
    }

    method Allocate(requested: int, align: int, nodeOk: bool) returns (ok: bool, chunk: Chunk)
      requires Valid() && 0 <= requested <= UINT32_MAX
      modifies this, nodes
      ensures Valid()
      ensures contents == Allocated(old(contents), requested, align, nodeOk).1
      ensures Allocated(old(contents), requested, align, nodeOk).0 == if ok then Some(chunk) else None
      ensures forall n :: n in nodes ==> n in old(nodes) || fresh(n)
    {
      chunk := Chunk(0, 0);
      if align >= 32 || align < 0 { return false, chunk; }
      if align == 0 { return false, chunk; }
      var size := requested;
      var alignMask := Pow2(align) - 1;
      if size % (alignMask + 1) != 0 {
        if size > UINT32_MAX - alignMask { return false, chunk; }
        size := (size + alignMask) / (alignMask + 1) * (alignMask + 1);
      }
      ok, chunk := TakeSpace(size, alignMask, nodeOk);
    }

    /** The loop of Allocate that finds the first suitable block. */
    method TakeSpace(size: int, alignMask: int, nodeOk: bool) returns (ok: bool, chunk: Chunk)
      requires Valid() && alignMask >= 0
      modifies this, nodes
      ensures Valid()
      ensures contents == TakeFirst(old(contents), size, alignMask + 1, nodeOk).1
      ensures TakeFirst(old(contents), size, alignMask + 1, nodeOk).0 == if ok then Some(chunk) else None
      ensures forall n :: n in nodes ==> n in old(nodes) || fresh(n)
    {
      var b := first;
      var begWaste := 0;
      ghost var k := 0;
      while b != null
        invariant k <= |nodes| && b == (if k < |nodes| then nodes[k] else null)
        invariant forall i :: 0 <= i < k ==> !HasRoom(contents[i], size, alignMask + 1)
        decreases |nodes| - k
        modifies {}
      {
        NodeSays(k);
        begWaste := b.base % (alignMask + 1);
        if begWaste > 0 { begWaste := alignMask + 1 - begWaste; }
        if begWaste <= b.size && b.size - begWaste >= size { break; }
        b := b.next;
        k := k + 1;
      }
      if b != null {
        NodeSays(k);
        TakeAt(contents, k, size, alignMask + 1, nodeOk);
        chunk := CutBlock(b, k, begWaste, size, nodeOk, alignMask + 1);
        return true, chunk;
      }
      TakeNone(contents, size, alignMask + 1, nodeOk);
      return false, Chunk(0, 0);
    }

    /** The part of Allocate that resizes, splits or removes the block it has found. */
    method CutBlock(b: MemBlock, ghost k: nat, begWaste: int, size: int, nodeOk: bool, ghost unit: int)
      returns (chunk: Chunk)
      requires Valid() && k < |nodes| && nodes[k] == b
      requires unit > 0 && begWaste == Waste(b.base, unit) && HasRoom(contents[k], size, unit)
      modifies this, nodes
      ensures Valid()
      ensures var (c, left) := Cut(old(contents)[k], size, unit, nodeOk);
              chunk == c && contents == old(contents)[..k] + left + old(contents)[k + 1..]
      ensures forall n :: n in nodes ==> n in old(nodes) || fresh(n)
    {
      NodeSays(k);
      var addr := b.base + begWaste;
      var bSize := b.size - begWaste;
      chunk := Chunk(addr, size);
      ghost var front, back := contents[..k], contents[k + 1..];
      ghost var left := Cut(contents[k], size, unit, nodeOk).1;
      if begWaste == 0 {
        Resize(b, b.base + size, b.size - size, k);
        assert contents[..k] == front && contents[k + 1..] == back;
        if b.size == 0 {
          DelBlock(b, k);
          assert left == [] && contents == front + left + back;
        } else {
          assert left == [contents[k]] && contents == front + left + back;
        }
      } else {
        var nAddr := addr + size;
        var nSize := bSize - size;
        Resize(b, b.base, begWaste, k);
        assert contents[..k] == front && contents[k + 1..] == back;
        ghost var head := contents[k];
        assert contents == front + [head] + back && contents[..k + 1] == front + [head];
        if nSize != 0 {
          if nodeOk {
            var n := new MemBlock.Create(nAddr, nSize);
            InsertAfter(b, n, k);
            assert left == [head, Block(nAddr, nSize)] && contents == front + left + back;
          } else {
            chunk := Chunk(addr, size + nSize);
            assert left == [head];
          }
        } else {
          assert left == [head];
        }
      }
    }

    /** Absorbs the blocks that follow on without a gap. */
    method CoalesceRight(b: MemBlock, ghost k: nat)
      requires Valid() && k < |nodes| && nodes[k] == b
      modifies this, nodes
      ensures Valid() && contents == old(contents)[..k] + Coalesced(old(contents)[k], old(contents)[k + 1..])
      ensures forall i :: 0 <= i < |nodes| ==> nodes[i] in old(nodes)
    {
      NodeSays(k);
      var curPtr := b.base + b.size;
      var n := b.next;
      while n != null
        invariant Valid() && k < |nodes| && nodes[k] == b
        invariant curPtr == End(contents[k])
        invariant n == (if k + 1 < |nodes| then nodes[k + 1] else null)
        invariant contents[..k] == old(contents)[..k]
        invariant Coalesced(contents[k], contents[k + 1..]) == Coalesced(old(contents)[k], old(contents)[k + 1..])
        invariant forall i :: 0 <= i < |nodes| ==> nodes[i] in old(nodes)
        decreases |nodes| - k
      {
        NodeSays(k + 1);
        var next := n.next;
        if n.base != curPtr { break; }
        curPtr := curPtr + n.size;
        Absorb(b, n, k);
        n := next;
      }
      assert contents == contents[..k] + [contents[k]] + contents[k + 1..];
    }

    /** The next block joins this one. */
    method Absorb(b: MemBlock, n: MemBlock, ghost k: nat)
      requires Valid() && k + 1 < |nodes| && nodes[k] == b && nodes[k + 1] == n
      requires contents[k + 1].base == End(contents[k])
      modifies this, b, (if k + 2 < |nodes| then {nodes[k + 2]} else {})`prev
      ensures Valid() && k < |nodes| == old(|nodes|) - 1
      ensures forall i :: 0 <= i < |nodes| ==> nodes[i] == old(nodes)[if i <= k then i else i + 1]
      ensures contents[..k] == old(contents)[..k] && End(contents[k]) == old(End(contents[k + 1]))
      ensures Coalesced(contents[k], contents[k + 1..]) == old(Coalesced(contents[k], contents[k + 1..]))
    {
      NodeSays(k);
      NodeSays(k + 1);
      Resize(b, b.base, b.size + n.size, k);
      DelBlock(n, k + 1);
      ghost var rest := old(contents)[k + 1..];
      assert rest[0] == old(contents)[k + 1] && rest[1..] == contents[k + 1..];
    }

    method Deallocate(chunk: Chunk, nodeOk: bool)
      requires Valid()
      modifies this, nodes
      ensures Valid() && contents == Deallocated(old(contents), chunk, nodeOk)
      ensures forall n :: n in nodes ==> n in old(nodes) || fresh(n)
    {
      var cAddr, cSize := chunk.addr, chunk.size;
      var b := first;
      ghost var k := 0;
      while b != null && b.base <= cAddr && b.base + b.size != cAddr
        invariant k <= |nodes| && b == (if k < |nodes| then nodes[k] else null)
        invariant forall i :: 0 <= i < k ==> PassedBy(contents[i], chunk)
        decreases |nodes| - k
        modifies {}
      {
        NodeSays(k);
        b := b.next;
        k := k + 1;
      }
      DeallocateFrom(contents, k, chunk, nodeOk);
      if b != null {
        NodeSays(k);
        MergeAt(b, chunk, nodeOk, k);
      } else if nodeOk {
        var c := new MemBlock.Create(cAddr, cSize);
        AddBlock(c);
      }
    }

    /** What Deallocate does at the block where its walk ends. */
    method MergeAt(b: MemBlock, chunk: Chunk, nodeOk: bool, ghost k: nat)
      requires Valid() && k < |nodes| && nodes[k] == b
      requires b.base > chunk.addr || b.base + b.size == chunk.addr
      modifies this, nodes
      ensures Valid()
      ensures contents == old(contents)[..k] + Deallocated(old(contents)[k..], chunk, nodeOk)
      ensures forall n :: n in nodes ==> n in old(nodes) || fresh(n)
    {
      NodeSays(k);
      ghost var rest := contents[k..];
      assert contents == contents[..k] + rest;
      assert rest[0] == contents[k] && rest[1..] == contents[k + 1..];
      var cAddr, cSize := chunk.addr, chunk.size;
      if b.base > cAddr {
        if cAddr + cSize == b.base {
          Resize(b, cAddr, b.size + cSize, k);
          assert contents == old(contents)[..k] + ([contents[k]] + old(contents)[k + 1..]);
        } else if nodeOk {
          var c := new MemBlock.Create(cAddr, cSize);
          InsertBefore(b, c, k);
          assert contents == old(contents)[..k] + ([Block(cAddr, cSize)] + rest);
        }
      } else {
        Resize(b, b.base, b.size + cSize, k);
        assert contents[k + 1..] == old(contents)[k + 1..];
        CoalesceRight(b, k);
      }
    }
  }

  /** A block Deallocate walks past. */
  predicate PassedBy(b: Block, c: Chunk) {
    b.base <= c.addr && End(b) != c.addr
  }

  lemma {:induction false} DeallocateFrom(bs: seq<Block>, k: nat, c: Chunk, nodeOk: bool)
    requires k <= |bs| && forall i :: 0 <= i < k ==> PassedBy(bs[i], c)
    ensures Deallocated(bs, c, nodeOk) == bs[..k] + Deallocated(bs[k..], c, nodeOk)
  {
    if k > 0 {
      DeallocateFrom(bs[1..], k - 1, c, nodeOk);
      assert PassedBy(bs[0], c);
      assert bs[1..][k - 1..] == bs[k..] && [bs[0]] + bs[1..][..k - 1] == bs[..k];
    } else {
      assert bs[0..] == bs;
    }
  }

  lemma {:induction false} TakeAt(bs: seq<Block>, k: nat, size: int, unit: int, nodeOk: bool)
    requires unit > 0 && k < |bs| && HasRoom(bs[k], size, unit)
    requires forall i :: 0 <= i < k ==> !HasRoom(bs[i], size, unit)
    ensures var (c, left) := Cut(bs[k], size, unit, nodeOk);
            TakeFirst(bs, size, unit, nodeOk) == (Some(c), bs[..k] + left + bs[k + 1..])
  {
    if k > 0 {
      TakeAt(bs[1..], k - 1, size, unit, nodeOk);
      var left := Cut(bs[k], size, unit, nodeOk).1;
      assert [bs[0]] + (bs[1..][..k - 1] + left + bs[1..][k..]) == bs[..k] + left + bs[k + 1..];
    } else {
      var left := Cut(bs[0], size, unit, nodeOk).1;
      assert left + bs[1..] == bs[..0] + left + bs[1..];
    }
  }

  lemma {:induction false} TakeNone(bs: seq<Block>, size: int, unit: int, nodeOk: bool)
    requires unit > 0 && forall i :: 0 <= i < |bs| ==> !HasRoom(bs[i], size, unit)
    ensures TakeFirst(bs, size, unit, nodeOk) == (None, bs)
  {
    if bs != [] {
      TakeNone(bs[1..], size, unit, nodeOk);
      assert [bs[0]] + bs[1..] == bs;
    }
  }
}
