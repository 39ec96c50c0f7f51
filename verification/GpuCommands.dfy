/** GPU command lists: packets of register writes, and the buffer they are added to. */
module GpuCommands {
  import opened Arithmetic

  datatype Option<T> = None | Some(value: T)

  const LIMIT := 0x1_0000_0000
  type Word = w: int | 0 <= w < LIMIT

  /** The most values one packet can carry. */
  const MAX_VALUES := 0x100

  const FINALIZE_REG := 0x0010
  const FINALIZE_VALUE: Word := 0x12345678

  // The fields of a packet's header word.

  function Reg(h: Word): int { h % 0x1_0000 }

  function Mask(h: Word): int { h / 0x1_0000 % 0x10 }

  function Extra(h: Word): (e: int)
    ensures 0 <= e < 0x100
  {
    h / 0x10_0000 % 0x100
  }

  function Consecutive(h: Word): bool { h >= 0x8000_0000 }

  /** GPUCMD_HEADER. */
  function Header(incremental: bool, mask: int, reg: int): Word {
    (if incremental then 0x8000_0000 else 0) + mask % 0x10 * 0x1_0000 + reg % 0x400
  }

  /** Bitwise or. */
  function Or(a: nat, b: nat): (r: nat)
    ensures a == 0 ==> r == b
  {
    if a == 0 then b else if b == 0 then a
    else (if a % 2 == 1 || b % 2 == 1 then 1 else 0) + 2 * Or(a / 2, b / 2)
  }

  /** Whether bit k is set. */
  predicate Bit(a: nat, k: nat) {
    if k == 0 then a % 2 == 1 else Bit(a / 2, k - 1)
  }

  lemma {:induction false} OrBits(a: nat, b: nat, k: nat)
    ensures Bit(Or(a, b), k) <==> Bit(a, k) || Bit(b, k)
    decreases k
  {
    if a == 0 || b == 0 {
      ZeroBits(k);
    } else {
      OrHalves(a, b);
      if k > 0 { OrBits(a / 2, b / 2, k - 1); }
    }
  }

  lemma OrHalves(a: nat, b: nat)
    ensures a > 0 && b > 0 ==> Or(a, b) / 2 == Or(a / 2, b / 2)
    ensures a > 0 && b > 0 ==> (Or(a, b) % 2 == 1 <==> a % 2 == 1 || b % 2 == 1)
  {
  }

  lemma {:induction false} ZeroBits(k: nat)
    ensures !Bit(0, k)
  {
    if k > 0 { ZeroBits(k - 1); }
  }

  /** header | (extra << 20), for an extra count of eight bits. */
  function OrExtra(h: Word, extra: int): (r: Word)
    requires 0 <= extra < 0x100
    ensures Extra(h) == 0 ==> r == h + extra * 0x10_0000
  {
    h / 0x1000_0000 * 0x1000_0000 + Or(Extra(h), extra) % 0x100 * 0x10_0000 + h % 0x10_0000
  }

  // What a command list means: the register writes the GPU performs.

  datatype Write = Write(reg: int, mask: int, value: Word)

  /** One write for each value, to one register or to consecutive ones. */
  function Writes(h: Word, values: seq<Word>): seq<Write> {
    seq(|values|, i requires 0 <= i < |values| =>
      Write(if Consecutive(h) then Reg(h) + i else Reg(h), Mask(h), values[i]))
  }

  function PacketLength(n: nat): (length: nat)
    requires n > 0
    ensures length % 2 == 0
  {
    if n % 2 == 0 then n + 2 else n + 1
  }

  datatype Parsed = Parsed(writes: seq<Write>, length: nat)

  /** A packet: the first value, the header, the other values, and a pad word when their number
      is odd. */
  function FirstPacket(words: seq<Word>): (p: Option<Parsed>)
    ensures p.Some? ==> 0 < p.value.length <= |words|
  {
    if |words| < 2 then None
    else
      var n := Extra(words[1]) + 1;
      var length := PacketLength(n);
      if |words| < length then None
      else Some(Parsed(Writes(words[1], [words[0]] + words[2..n + 1]), length))
  }

  /** A list is a run of packets. */
  function Decode(words: seq<Word>): Option<seq<Write>>
    decreases |words|
  {
    if words == [] then Some([])
    else match FirstPacket(words)
      case None => None
      case Some(p) => Before(p.writes, Decode(words[p.length..]))
  }

  function Before(first: seq<Write>, rest: Option<seq<Write>>): Option<seq<Write>> {
    if rest.None? then None else Some(first + rest.value)
  }

  lemma {:induction false} DecodeConcat(a: seq<Word>, b: seq<Word>)
    requires Decode(a).Some?
    ensures Decode(a + b) == Before(Decode(a).value, Decode(b))
    decreases |a|
  {
    if a == [] {
      assert a + b == b;
      BeforeEmpty(Decode(b));
    } else {
      var p := FirstPacket(a).value;
      DecodeConcat(a[p.length..], b);
      FirstPacketConcat(a, b);
      DecodeAfter(a, b, p);
    }
  }

  lemma DecodeStep(words: seq<Word>, p: Parsed)
    requires words != [] && FirstPacket(words) == Some(p)
    ensures Decode(words) == Before(p.writes, Decode(words[p.length..]))
  {
  }

  lemma DecodeAfter(a: seq<Word>, b: seq<Word>, p: Parsed)
    requires a != [] && FirstPacket(a) == FirstPacket(a + b) == Some(p) && Decode(a[p.length..]).Some?
    requires Decode(a[p.length..] + b) == Before(Decode(a[p.length..]).value, Decode(b))
    ensures Decode(a + b) == Before(Decode(a).value, Decode(b))
  {
    var rest := a[p.length..];
    DecodeStep(a, p);
    DecodeStep(a + b, p);
    DropConcat(a, b, p.length);
    BeforeBefore(p.writes, Decode(rest).value, Decode(b));
  }

  lemma DropConcat(a: seq<Word>, b: seq<Word>, k: nat)
    requires k <= |a|
    ensures (a + b)[k..] == a[k..] + b
  {
  }

  lemma BeforeEmpty(o: Option<seq<Write>>)
    ensures Before([], o) == o
  {
    if o.Some? {
      assert [] + o.value == o.value;
    }
  }

  lemma BeforeBefore(a: seq<Write>, b: seq<Write>, o: Option<seq<Write>>)
    ensures Before(a, Before(b, o)) == Before(a + b, o)
  {
    if o.Some? {
      assert a + (b + o.value) == a + b + o.value;
    }
  }

  lemma FirstPacketConcat(a: seq<Word>, b: seq<Word>)
    requires FirstPacket(a).Some?
    ensures FirstPacket(a + b) == FirstPacket(a)
  {
    var n := Extra(a[1]) + 1;
    assert (a + b)[2..n + 1] == a[2..n + 1];
  }

  // What the library writes.

  function Packet(h: Word, values: seq<Word>): (words: seq<Word>)
    requires 0 < |values| <= MAX_VALUES
    ensures |words| == PacketLength(|values|)
  {
    Framed(OrExtra(h, |values| - 1), values)
  }

  /** The words of a packet with this header. */
  function Framed(header: Word, values: seq<Word>): (words: seq<Word>)
    requires |values| > 0
    ensures |words| == PacketLength(|values|)
  {
    Unpadded(header, values) + if |values| % 2 == 0 then [0] else []
  }

  function Unpadded(header: Word, values: seq<Word>): (words: seq<Word>)
    requires |values| > 0
    ensures |words| == |values| + 1
  {
    [values[0], header] + values[1..]
  }

  /** The header of the packet that goes on after n values. */
  function Advanced(h: Word, n: nat): Word {
    if Consecutive(h) then (h + n) % LIMIT else h
  }

  /** The number of values the next packet carries when n are left. */
  function Chunk(n: nat): nat { if n > MAX_VALUES then MAX_VALUES else n }

  function Encode(h: Word, values: seq<Word>): (words: seq<Word>)
    decreases |values|
  {
    if values == [] then []
    else
      var k := Chunk(|values|);
      Packet(h, values[..k]) + Encode(Advanced(h, k), values[k..])
  }

  /** The number of words that n values take. */
  function EncodedLength(n: nat): (length: nat)
    ensures length % 2 == 0 && length >= n && (n > 0 ==> length > n)
  {
    if n == 0 then 0 else PacketLength(Chunk(n)) + EncodedLength(n - Chunk(n))
  }

  lemma {:induction false} EncodeLength(h: Word, values: seq<Word>)
    ensures |Encode(h, values)| == EncodedLength(|values|)
    decreases |values|
  {
    if values != [] {
      var k := Chunk(|values|);
      EncodeLength(Advanced(h, k), values[k..]);
    }
  }

  /** A header fit for n values: no count yet, and no register past the 16-bit field. */
  predicate Fit(h: Word, n: nat) {
    Extra(h) == 0 && (Consecutive(h) ==> Reg(h) + n <= 0x1_0000)
  }

  lemma HeaderIsFit(incremental: bool, mask: int, reg: int, n: nat)
    requires 0 <= mask < 0x10 && 0 <= reg < 0x400 && n <= 0xFC00
    ensures var h := Header(incremental, mask, reg);
            Fit(h, n) && Reg(h) == reg && Mask(h) == mask && Consecutive(h) == incremental
  {
  }

  /** The header macro in numbers; of the mask and the register only the low four and ten bits
      count. */
  lemma HeaderWord(incremental: bool, maskHigh: nat, mask: nat, regHigh: nat, reg: nat)
    requires mask < 0x10 && reg < 0x400
    ensures Header(incremental, 0x10 * maskHigh + mask, 0x400 * regHigh + reg)
            == (if incremental then 0x8000_0000 else 0) + mask * 0x1_0000 + reg
  {
    DivModUnique(0x10 * maskHigh + mask, 0x10, maskHigh, mask);
    DivModUnique(0x400 * regHigh + reg, 0x400, regHigh, reg);
  }

  /** A packet word by word: the first value, the header with the number of further values from
      bit 20 on, the further values, and a zero when their number is odd. */
  lemma PacketWords(h: Word, values: seq<Word>)
    requires 0 < |values| <= 0x100 && h / 0x10_0000 % 0x100 == 0
    ensures var words := Packet(h, values);
            && |words| == |values| + (if |values| % 2 == 0 then 2 else 1)
            && words[0] == values[0] && words[1] == h + (|values| - 1) * 0x10_0000
            && (forall i :: 1 <= i < |values| ==> words[i + 1] == values[i])
            && (|values| % 2 == 0 ==> words[|words| - 1] == 0)
  {
  }

  /** More than 256 values start with a packet of 256, and a header for consecutive registers
      goes on 256 registers further. */
  lemma LongCommand(h: Word, values: seq<Word>)
    requires |values| > 0x100
    ensures Encode(h, values) == Packet(h, values[..0x100])
            + Encode(if h >= 0x8000_0000 then (h + 0x100) % 0x1_0000_0000 else h, values[0x100..])
  {
  }

  lemma OrExtraFields(h: Word, extra: int)
    requires Extra(h) == 0 && 0 <= extra < 0x100
    ensures var r := OrExtra(h, extra);
            Extra(r) == extra && Reg(r) == Reg(h) && Mask(r) == Mask(h) && Consecutive(r) == Consecutive(h)
  {
    var hi, lo := h / 0x1000_0000, h % 0x10_0000;
    DivModUnique(h, 0x10_0000, hi * 0x100, lo);
    PlacedFields(h, hi, 0, lo);
    PlacedFields(h + extra * 0x10_0000, hi, extra, lo);
  }

  lemma PlacedFields(r: Word, hi: int, extra: int, lo: int)
    requires 0 <= hi < 0x10 && 0 <= extra < 0x100 && 0 <= lo < 0x10_0000
    requires r == hi * 0x1000_0000 + extra * 0x10_0000 + lo
    ensures Extra(r) == extra && Reg(r) == lo % 0x1_0000 && Mask(r) == lo / 0x1_0000 && Consecutive(r) == (hi >= 8)
  {
    DivModUnique(r, 0x10_0000, hi * 0x100 + extra, lo);
    DivModUnique(hi * 0x100 + extra, 0x100, hi, extra);
    var k := lo / 0x1_0000;
    DivModUnique(r, 0x1_0000, hi * 0x1000 + extra * 0x10 + k, lo % 0x1_0000);
    DivModUnique(hi * 0x1000 + extra * 0x10 + k, 0x10, hi * 0x100 + extra, k);
  }

  lemma AdvancedFields(h: Word, n: nat)
    requires Fit(h, n + 1)
    ensures var r := Advanced(h, n);
            && Extra(r) == 0 && Mask(r) == Mask(h) && Consecutive(r) == Consecutive(h)
            && Reg(r) == if Consecutive(h) then Reg(h) + n else Reg(h)
  {
    var hi, lo := h / 0x1000_0000, h % 0x10_0000;
    DivModUnique(h, 0x10_0000, hi * 0x100, lo);
    PlacedFields(h, hi, 0, lo);
    if Consecutive(h) {
      DivModUnique(lo + n, 0x1_0000, lo / 0x1_0000, lo % 0x1_0000 + n);
      PlacedFields(h + n, hi, 0, lo + n);
    }
  }

  lemma PacketDecodes(h: Word, values: seq<Word>)
    requires 0 < |values| <= MAX_VALUES && Extra(h) == 0
    ensures Decode(Packet(h, values)) == Some(Writes(h, values))
  {
    var words := Packet(h, values);
    OrExtraFields(h, |values| - 1);
    assert words[PacketLength(|values|)..] == [];
    assert [words[0]] + words[2..|values| + 1] == values;
    assert Writes(words[1], values) == Writes(h, values);
    assert Writes(h, values) + [] == Writes(h, values);
  }

  lemma WritesConcat(h: Word, a: seq<Word>, b: seq<Word>)
    requires Fit(h, |a| + 1)
    ensures Writes(h, a + b) == Writes(h, a) + Writes(Advanced(h, |a|), b)
  {
    AdvancedFields(h, |a|);
  }

  lemma OnePacket(h: Word, values: seq<Word>)
    requires 0 < |values| <= MAX_VALUES
    ensures Encode(h, values) == Packet(h, values)
  {
    assert values[..|values|] == values;
    assert Packet(h, values) + [] == Packet(h, values);
  }

  /** Decoding what the library writes gives back exactly the requested writes, also where a
      long command was cut into several packets. */
  lemma {:induction false} RoundTrip(h: Word, values: seq<Word>)
    requires Fit(h, |values|)
    ensures Decode(Encode(h, values)) == Some(Writes(h, values))
    decreases |values|
  {
    var k := Chunk(|values|);
    if k == 0 {
      assert Writes(h, values) == [];
    } else if k == |values| {
      PacketDecodes(h, values);
      OnePacket(h, values);
    } else {
      var a, b := values[..k], values[k..];
      PacketDecodes(h, a);
      AdvancedFields(h, k);
      RoundTrip(Advanced(h, k), b);
      DecodeConcat(Packet(h, a), Encode(Advanced(h, k), b));
      WritesConcat(h, a, b);
      assert a + b == values;
    }
  }

  /** The pad of a packet of n values: the bounds check leaves it out of account. */
  function LastPad(n: nat): (pad: nat)
    ensures n > 0 ==> PacketLength(n) == n + 1 + pad
  {
    if n % 2 == 0 then 1 else 0
  }

  /** With an even offset and size a command that passes the check ends inside the buffer, the
      pad of its last packet included. */
  lemma EvenStaysInside(offset: nat, size: nat, n: nat)
    requires offset % 2 == 0 && size % 2 == 0 && offset + EncodedLength(n) <= size + LastPad(n)
    ensures offset + EncodedLength(n) <= size
  {
  }

  /** The values a parameter pointer stands for: zeros when it is null. */
  function Given(param: Option<seq<Word>>, at: nat, n: nat): (values: seq<Word>)
    requires Holds(param, at + n)
    ensures |values| == n
  {
    if param.Some? then param.value[at..at + n] else Zeros(n)
  }

  predicate Holds(param: Option<seq<Word>>, n: nat) {
    param.Some? ==> n <= |param.value|
  }

  lemma GivenFirst(param: Option<seq<Word>>, at: nat, n: nat, header: Word)
    requires Holds(param, at + n) && n > 0
    ensures var first := if param.Some? then param.value[at] else 0;
            Unpadded(header, Given(param, at, n)) == [first, header] + Given(param, at + 1, n - 1)
  {
    assert Given(param, at, n)[1..] == Given(param, at + 1, n - 1);
  }

  function Zeros(n: nat): (values: seq<Word>)
    ensures |values| == n
  {
    seq(n, _ => 0)
  }

  /** At least one value: no parameters count as one. */
  function Max1(n: nat): (m: nat)
    ensures 1 <= m && n <= m && (m == 1 || m == n)
  {
    if n == 0 then 1 else n
  }

  /** One write of every byte of a register. */
  function SingleWrite(reg: int, value: Word): (words: seq<Word>)
    ensures |words| == 2
  {
    Packet(Header(false, 0xF, reg), [value])
  }

  /** The length of a list of this length once it is closed. */
  function ClosedLength(offset: nat): nat {
    if (offset + 2) % 4 == 0 then offset + 2 else offset + 4
  }

  /** The current list is buf[start..start + offset]; `size` words are left from `start` on. The
      array is the memory from the buffer on, and the words behind the buffer are someone
      else's. */
  class CommandBuffer {
    var buf: array?<Word>
    var start: nat
    var size: nat
    var offset: nat

    /** A pad word may have passed the end. */
    ghost predicate Valid()
      reads this
    {
      offset <= size + 1 && (buf != null ==> start + size < buf.Length)
    }

    ghost function Contents(): seq<Word>
      reads this, buf
      requires Valid()
    {
      if buf == null then [] else buf[start..start + offset]
    }

    /** GPUCMD_SetBuffer. */
    constructor (buf: array?<Word>, size: nat, offset: nat)
      requires offset <= size && (buf != null ==> size < buf.Length)
      ensures Valid() && this.buf == buf && start == 0 && this.size == size && this.offset == offset
    {
      this.buf, this.start, this.size, this.offset := buf, 0, size, offset;
    }

    /** The memcpy or memset of a packet's further values. */
    method Fill(to: nat, param: Option<seq<Word>>, at: nat, n: nat)
      requires buf != null && to + n <= buf.Length
      requires Holds(param, at + n)
      modifies buf
      ensures Adds(old(buf[..]), buf[..], to, Given(param, at, n))
    {
      var i := 0;
      ghost var was, values := buf[..], Given(param, at, n);
      while i < n
        invariant 0 <= i <= n
        invariant forall k :: 0 <= k < buf.Length ==> buf[k] == if to <= k < to + i then values[k - to] else was[k]
      {
        buf[to + i] := if param.Some? then param.value[at + i] else 0;
        i := i + 1;
      }
    }

    /** The words of a packet without its pad. */
    method WriteValues(to: nat, header: Word, param: Option<seq<Word>>, at: nat, n: nat)
      requires buf != null && 0 < n && to + n + 1 <= buf.Length
      requires Holds(param, at + n)
      modifies buf
      ensures Adds(old(buf[..]), buf[..], to, Unpadded(header, Given(param, at, n)))
    {
      GivenFirst(param, at, n, header);
      var first := if param.Some? then param.value[at] else 0;
      ghost var was := buf[..];
      WriteTwo(to, first, header);
      ghost var mid := buf[..];
      Fill(to + 2, param, at + 1, n - 1);
      AddsThen(was, mid, buf[..], to, [first, header], Given(param, at + 1, n - 1));
    }

    method WriteTwo(to: nat, first: Word, second: Word)
      requires buf != null && to + 2 <= buf.Length
      modifies buf
      ensures Adds(old(buf[..]), buf[..], to, [first, second])
    {
      buf[to], buf[to + 1] := first, second;
    }

    /** GPUCMD_AddInternal. It panics, here returns false, when the buffer is missing or full.
        Otherwise the pad overwrites the word behind the buffer exactly when there is a pad and
        the check was met with no word to spare. */
    method AddInternal(header: Word, param: Option<seq<Word>>, at: nat, n: nat) returns (ok: bool)
      requires Valid() && 0 < n <= MAX_VALUES
      requires Holds(param, at + n)
      modifies this`offset, buf
      ensures Valid() && ok == (buf != null && old(offset) + n + 1 <= size)
      ensures offset == if ok then old(offset) + PacketLength(n) else old(offset)
      ensures ok ==> Adds(old(buf[..]), buf[..], start + old(offset), Packet(header, Given(param, at, n)))
      ensures ok ==> (offset > size <==> n % 2 == 0 && old(offset) + n + 1 == size)
      ensures !ok && buf != null ==> buf[..] == old(buf[..])
    {
      if buf == null || offset + n + 1 > size {
        return false;
      }
      offset := WritePacket(OrExtra(header, n - 1), param, at, n);
      return true;
    }

    method WritePacket(header: Word, param: Option<seq<Word>>, at: nat, n: nat) returns (next: nat)
      requires buf != null && 0 < n && start + offset + PacketLength(n) <= buf.Length
      requires Holds(param, at + n)
      modifies buf
      ensures next == offset + PacketLength(n)
      ensures Adds(old(buf[..]), buf[..], start + offset, Framed(header, Given(param, at, n)))
    {
      ghost var was, words := buf[..], Unpadded(header, Given(param, at, n));
      FramedIs(header, Given(param, at, n));
      next := offset + (n - 1) + 2;
      WriteValues(start + offset, header, param, at, n);
      if n % 2 == 0 {
        PadAfter(start + next, was, start + offset, words);
        next := next + 1;
      }
    }

    method PadAfter(to: nat, ghost was: seq<Word>, ghost base: nat, ghost words: seq<Word>)
      requires buf != null && to < buf.Length && to == base + |words| && Adds(was, buf[..], base, words)
      modifies buf
      ensures Adds(was, buf[..], base, words + [0])
    {
      ghost var mid := buf[..];
      buf[to] := 0;
      assert Adds(mid, buf[..], to, [0]);
      AddsThen(was, mid, buf[..], base, words, [0]);
    }

    /** How far GPUCMD_Add is: `done` has been added at position `base`, and `at` values are
        behind it. */
    ghost predicate Under(job: Job, was: seq<Word>, base: nat, done: seq<Word>, h: Word, at: nat)
      reads this, buf
    {
      && Valid() && base + |done| == start + offset
      && (buf == null ==> at == 0)
      && (at == job.n ==> offset <= size + LastPad(job.n))
      && (buf != null ==> Adds(was, buf[..], base, done))
      && Progress(job, done, h, at)
    }

    /** GPUCMD_Add. It adds the encoding of the command, or panics when that does not fit. */
    method Add(header: Word, param: Option<seq<Word>>, n: nat) returns (ok: bool)
      requires Valid() && Holds(param, Max1(n)) && (param.None? ==> n <= MAX_VALUES)
      modifies this`offset, buf
      ensures Valid() && ok == (buf != null && old(offset) + EncodedLength(Max1(n)) <= size + LastPad(Max1(n)))
      ensures ok ==> offset == old(offset) + EncodedLength(Max1(n))
      ensures ok ==> Adds(old(buf[..]), buf[..], start + old(offset), Encode(header, Given(param, 0, Max1(n))))
    {
      var left := Max1(n);
      ghost var job := Job(Encode(header, Given(param, 0, left)), param, left);
      ghost var was, base := if buf == null then [] else buf[..], start + offset;
      Begin(header, param, left);
      if buf != null { AddsNothing(was, base); }
      ok := AddAll(header, param, left, job, was, base);
    }

    /** The loop of GPUCMD_Add. */
    method AddAll(header: Word, param: Option<seq<Word>>, n: nat, ghost job: Job, ghost was: seq<Word>, ghost base: nat)
      returns (ok: bool)
      requires n > 0 && n == job.n && param == job.param && Under(job, was, base, [], header, 0)
      modifies this`offset, buf
      ensures Valid() && ok == (buf != null && base + |job.words| <= start + size + LastPad(n))
      ensures ok ==> base + |job.words| == start + offset && Adds(was, buf[..], base, job.words)
    {
      var left, at := n, 0;
      var h: Word := header;
      ghost var done := [];
      while left > 0
        invariant at + left == job.n && Under(job, was, base, done, h, at)
      {
        var remaining := if left > MAX_VALUES then MAX_VALUES else left;
        ok, h, done := Turn(h, param, at, remaining, job, was, base, done);
        if !ok {
          return;
        }
        at := at + remaining;
        left := left - remaining;
      }
      StillToDo(job, done, h, at);
      return true;
    }

    /** One turn of the loop of GPUCMD_Add. */
    method Turn(header: Word, param: Option<seq<Word>>, at: nat, remaining: nat, ghost job: Job,
                ghost was: seq<Word>, ghost base: nat, ghost done: seq<Word>)
      returns (ok: bool, h: Word, ghost done': seq<Word>)
      requires Under(job, was, base, done, header, at)
      requires at < job.n && remaining == Chunk(job.n - at) && param == job.param
      modifies this`offset, buf
      ensures ok ==> Under(job, was, base, done', h, at + remaining)
      ensures !ok ==> Valid() && (buf == null || base + |job.words| > start + size + LastPad(job.n))
    {
      ok := AddNext(header, param, at, remaining, was, base, done);
      h := Advanced(header, remaining);
      done' := done + Packet(header, Given(param, at, remaining));
      if ok {
        MakeProgress(job, done, header, at, done', h, at + remaining);
      } else {
        StillToDo(job, done, header, at);
      }
    }

    /** GPUCMD_AddInternal after `done` has been added. */
    method AddNext(h: Word, param: Option<seq<Word>>, at: nat, n: nat,
                   ghost was: seq<Word>, ghost base: nat, ghost done: seq<Word>) returns (ok: bool)
      requires Valid() && 0 < n <= MAX_VALUES && Holds(param, at + n)
      requires base + |done| == start + offset && (buf != null ==> Adds(was, buf[..], base, done))
      modifies this`offset, buf
      ensures Valid() && ok == (buf != null && old(offset) + n + 1 <= size)
      ensures ok ==> base + |done| + PacketLength(n) == start + offset && offset <= size + LastPad(n)
      ensures ok ==> Adds(was, buf[..], base, done + Packet(h, Given(param, at, n)))
    {
      ghost var before := if buf == null then [] else buf[..];
      ghost var packet := Packet(h, Given(param, at, n));
      ok := AddInternal(h, param, at, n);
      if ok {
        AddsThen(was, before, buf[..], base, done, packet);
      }
    }

    /** GPUCMD_AddWrite. */
    method AddWrite(reg: int, value: Word) returns (ok: bool)
      requires Valid()
      modifies this`offset, buf
      ensures Valid() && ok == (buf != null && old(offset) + 2 <= size)
      ensures ok ==> offset == old(offset) + 2 && Contents() == old(Contents()) + SingleWrite(reg, value)
    {
      OnePacket(Header(false, 0xF, reg), [value]);
      ghost var was := if buf == null then [] else buf[..];
      ok := Add(Header(false, 0xF, reg), Some([value]), 1);
      if ok {
        AddsContents(was, buf[..], start, old(offset), SingleWrite(reg, value));
      }
    }

    /** The writes that end a list and align the next one to 16 bytes. */
    method Close() returns (ok: bool)
      requires Valid()
      modifies this`offset, buf
      ensures Valid() && ok == (buf != null && ClosedLength(old(offset)) <= size)
      ensures ok ==> offset == ClosedLength(old(offset)) && Contents() == old(Contents()) + Closing(old(offset))
    {
      ghost var list, once := Contents(), SingleWrite(FINALIZE_REG, FINALIZE_VALUE);
      ok := AddWrite(FINALIZE_REG, FINALIZE_VALUE);
      if ok && offset % 4 != 0 {
        ok := AddWrite(FINALIZE_REG, FINALIZE_VALUE);
        Associate(list, once, once);
      }
    }

    /** GPUCMD_Split. It closes the list and hands it out; the buffer goes on after it. */
    method Split() returns (ok: bool, addr: nat, length: nat)
      requires Valid()
      modifies this, buf
      ensures Valid() && buf == old(buf) && ok == (buf != null && ClosedLength(old(offset)) <= old(size))
      ensures ok ==> addr == old(start) && length == ClosedLength(old(offset))
      ensures ok ==> start == addr + length && size == old(size) - length && offset == 0
      ensures ok ==> start <= buf.Length && buf[addr..start] == old(Contents()) + Closing(old(offset))
    {
      ghost var list := Contents() + Closing(offset);
      ok := Close();
      addr, length := start, offset;
      if ok {
        assert buf[start..start + offset] == list;
        start, size, offset := start + offset, size - offset, 0;
      }
    }
  }

  /** A closed list has a multiple of 4 words exactly when it had an even number of them, and
      then it is the shortest such list with room for the end. */
  lemma ClosedIsAligned(offset: nat, length: nat)
    ensures ClosedLength(offset) % 4 == 0 <==> offset % 2 == 0
    ensures offset % 2 == 0 && length % 4 == 0 && length >= offset + 2 ==> length >= ClosedLength(offset)
  {
    var q, r := offset / 4, offset % 4;
    assert r == 0 || r == 1 || r == 2 || r == 3;
    DivModUnique(offset + 2, 4, if r < 2 then q else q + 1, if r < 2 then r + 2 else r - 2);
    DivModUnique(offset + 4, 4, q + 1, r);
    DivModUnique(offset, 2, 2 * q + r / 2, r % 2);
    if length % 4 == 0 && length >= offset + 2 {
      assert length / 4 >= q + 1;
    }
  }

  /** What a call of GPUCMD_Add has to add, and from which values. */
  datatype Job = Job(words: seq<Word>, param: Option<seq<Word>>, n: nat)

  /** The values before `at` are encoded in `done`; the rest goes on with header h. */
  predicate Progress(job: Job, done: seq<Word>, h: Word, at: nat) {
    && at <= job.n && Holds(job.param, job.n)
    && (at < job.n ==> LastPad(job.n - at) == LastPad(job.n))
    && job.words == done + Encode(h, Given(job.param, at, job.n - at))
  }

  lemma Begin(header: Word, param: Option<seq<Word>>, n: nat)
    requires Holds(param, n)
    ensures var words := Encode(header, Given(param, 0, n));
            |words| == EncodedLength(n) && Progress(Job(words, param, n), [], header, 0)
  {
    EncodeLength(header, Given(param, 0, n));
  }

  lemma GivenSplit(param: Option<seq<Word>>, at: nat, n: nat, k: nat)
    requires Holds(param, at + n) && k <= n
    ensures Given(param, at, n)[..k] == Given(param, at, k)
    ensures Given(param, at, n)[k..] == Given(param, at + k, n - k)
  {
    if param.Some? {
      var values := param.value;
      assert values[at..at + n][..k] == values[at..at + k];
      assert values[at..at + n][k..] == values[at + k..at + n];
    }
  }

  lemma SamePad(n: nat, n': nat)
    requires n == n' + MAX_VALUES || n' == 0
    ensures n' == 0 || LastPad(n) == LastPad(n')
  {
  }

  lemma MakeProgress(job: Job, done: seq<Word>, h: Word, at: nat, done': seq<Word>, h': Word, at': nat)
    requires Progress(job, done, h, at) && at < job.n && at' == at + Chunk(job.n - at)
    requires done' == done + Packet(h, Given(job.param, at, at' - at)) && h' == Advanced(h, at' - at)
    ensures Progress(job, done', h', at')
  {
    var k := at' - at;
    SamePad(job.n - at, job.n - at');
    WordsGoOn(job, done, Packet(h, Given(job.param, at, k)), h, at, h', at');
  }

  lemma WordsGoOn(job: Job, done: seq<Word>, packet: seq<Word>, h: Word, at: nat, h': Word, at': nat)
    requires at < job.n && at' == at + Chunk(job.n - at) && Holds(job.param, job.n) && h' == Advanced(h, at' - at)
    requires job.words == done + Encode(h, Given(job.param, at, job.n - at))
    requires packet == Packet(h, Given(job.param, at, at' - at))
    ensures job.words == done + packet + Encode(h', Given(job.param, at', job.n - at'))
  {
    EncodeGiven(job.param, at, job.n - at, h);
    Regroup(job.words, done, Encode(h, Given(job.param, at, job.n - at)), packet,
            Encode(h', Given(job.param, at', job.n - at')));
  }

  lemma Regroup(total: seq<Word>, done: seq<Word>, whole: seq<Word>, first: seq<Word>, rest: seq<Word>)
    requires total == done + whole && whole == first + rest
    ensures total == done + first + rest
  {
  }

  /** The encoding of the values from `at` on is a packet and the encoding of the rest. */
  lemma EncodeGiven(param: Option<seq<Word>>, at: nat, n: nat, h: Word)
    requires Holds(param, at + n) && n > 0
    ensures var k := Chunk(n);
            Encode(h, Given(param, at, n)) ==
            Packet(h, Given(param, at, k)) + Encode(Advanced(h, k), Given(param, at + k, n - k))
  {
    GivenSplit(param, at, n, Chunk(n));
  }

  lemma StillToDo(job: Job, done: seq<Word>, h: Word, at: nat)
    requires Progress(job, done, h, at)
    ensures at < job.n ==> |job.words| >= |done| + Chunk(job.n - at) + 1 + LastPad(job.n)
    ensures at == job.n ==> done == job.words
  {
  }

  lemma Associate(a: seq<Word>, b: seq<Word>, c: seq<Word>)
    ensures a + (b + c) == a + b + c
  {
  }

  /** `was` with words written over it from position `to` on. */
  function Put(was: seq<Word>, to: nat, words: seq<Word>): (now: seq<Word>)
    requires to + |words| <= |was|
    ensures |now| == |was|
  {
    was[..to] + words + was[to + |words|..]
  }

  lemma PutPut(was: seq<Word>, to: nat, a: seq<Word>, b: seq<Word>)
    requires to + |a| + |b| <= |was|
    ensures Put(Put(was, to, a), to + |a|, b) == Put(was, to, a + b)
  {
  }

  predicate Adds(was: seq<Word>, now: seq<Word>, to: nat, words: seq<Word>) {
    to + |words| <= |was| && now == Put(was, to, words)
  }

  lemma AddsNothing(was: seq<Word>, to: nat)
    requires to <= |was|
    ensures Adds(was, was, to, [])
  {
  }

  lemma FramedIs(header: Word, values: seq<Word>)
    requires |values| > 0
    ensures |values| % 2 == 0 ==> Framed(header, values) == Unpadded(header, values) + [0]
    ensures |values| % 2 == 1 ==> Framed(header, values) == Unpadded(header, values)
  {
  }

  lemma AddsThen(was: seq<Word>, mid: seq<Word>, now: seq<Word>, to: nat, a: seq<Word>, b: seq<Word>)
    requires Adds(was, mid, to, a) && Adds(mid, now, to + |a|, b)
    ensures Adds(was, now, to, a + b)
  {
    PutPut(was, to, a, b);
  }

  lemma AddsContents(was: seq<Word>, now: seq<Word>, start: nat, offset: nat, words: seq<Word>)
    requires Adds(was, now, start + offset, words)
    ensures now[start..start + offset + |words|] == was[start..start + offset] + words
  {
  }

  /** The one or two writes that close a list of this length. */
  function Closing(offset: nat): seq<Word> {
    var once := SingleWrite(FINALIZE_REG, FINALIZE_VALUE);
    if offset + 2 == ClosedLength(offset) then once else once + once
  }

  /** A command added to a list adds its writes to those the list means. */
  lemma AddedDecodes(was: seq<Word>, now: seq<Word>, start: nat, offset: nat, h: Word, values: seq<Word>)
    requires Adds(was, now, start + offset, Encode(h, values)) && Fit(h, |values|)
    requires Decode(was[start..start + offset]).Some?
    ensures Decode(now[start..start + offset + |Encode(h, values)|]) ==
            Some(Decode(was[start..start + offset]).value + Writes(h, values))
  {
    AddsContents(was, now, start, offset, Encode(h, values));
    RoundTrip(h, values);
    DecodeConcat(was[start..start + offset], Encode(h, values));
  }

  function End(): Write { Write(FINALIZE_REG, 0xF, FINALIZE_VALUE) }

  lemma SingleDecodes(reg: int, value: Word)
    requires 0 <= reg < 0x400
    ensures Decode(SingleWrite(reg, value)) == Some([Write(reg, 0xF, value)])
  {
    var h := Header(false, 0xF, reg);
    HeaderIsFit(false, 0xF, reg, 1);
    PacketDecodes(h, [value]);
    assert Writes(h, [value]) == [Write(reg, 0xF, value)];
  }

  lemma TwiceDecodes(list: seq<Word>, w: Write)
    requires Decode(list) == Some([w])
    ensures Decode(list + list) == Some([w, w])
  {
    DecodeConcat(list, list);
    assert [w] + [w] == [w, w];
  }

  lemma ClosedOnce(offset: nat)
    ensures ClosedLength(offset) == offset + (if offset % 4 == 2 then 2 else 4)
  {
    DivModUnique(offset + 2, 4, (offset + 2) / 4, (offset + 2) % 4);
  }

  lemma ClosingDecodes(offset: nat)
    ensures Decode(Closing(offset)) == Some(if offset % 4 == 2 then [End()] else [End(), End()])
  {
    ClosedOnce(offset);
    SingleDecodes(FINALIZE_REG, FINALIZE_VALUE);
    TwiceDecodes(SingleWrite(FINALIZE_REG, FINALIZE_VALUE), End());
  }

  /** A closed list means what it meant before, and then the end of drawing once or twice. */
  lemma ClosedDecodes(list: seq<Word>)
    requires Decode(list).Some?
    ensures var end := Write(0x10, 0xF, 0x12345678);
            Decode(list + Closing(|list|)) ==
            Some(Decode(list).value + if |list| % 4 == 2 then [end] else [end, end])
  {
    ClosingDecodes(|list|);
    DecodeConcat(list, Closing(|list|));
  }

  lemma PadIsZero(was: seq<Word>, now: seq<Word>, to: nat, h: Word, values: seq<Word>)
    requires 0 < |values| <= MAX_VALUES && |values| % 2 == 0 && Adds(was, now, to, Packet(h, values))
    ensures now[to + |values| + 1] == 0
  {
    assert Packet(h, values)[|values| + 1] == 0;
  }

  /** An odd buffer: two values in three words pass the check, and the pad overwrites the word
      behind the buffer, whatever was there. */
  method PadPassesEnd(memory: array<Word>, h: Word) returns (c: CommandBuffer, ok: bool)
    requires memory.Length == 4
    modifies memory
    ensures ok && c.buf == memory && c.start == 0 && c.size == 3 && c.offset == 4 && memory[3] == 0
  {
    c := new CommandBuffer(memory, 3, 0);
    ghost var was := memory[..];
    ok := c.AddInternal(h, Some([1, 2]), 0, 2);
    PadIsZero(was, memory[..], 0, h, Given(Some([1, 2]), 0, 2));
  }
}
