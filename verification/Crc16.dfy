/** The CRC of the Mii selector: 16 zero bits are run through the register after the message. */
module Crc16 {
  import opened Polynomials

  function Crc(start: Poly, bits: Poly): (r: Poly)
    requires |start| == DEGREE
    ensures |r| == DEGREE
  {
    Run(start, bits + Zeros(DEGREE))
  }

  /** The CRC is the remainder of the message times x^16, the start value being put in front of
      the message, and nothing else is. */
  lemma CrcIsRemainder(start: Poly, bits: Poly, r: Poly)
    requires |start| == DEGREE
    ensures IsRemainder(start + (bits + Zeros(DEGREE)), r) <==> r == Crc(start, bits)
  {
    var p := start + (bits + Zeros(DEGREE));
    var q0 := Shifted(start, bits + Zeros(DEGREE));
    RunDivides(start, bits + Zeros(DEGREE));
    if IsRemainder(p, r) {
      var q :| Divides(p, q, r);
      RemainderUnique(p, q, r, q0, Crc(start, bits));
    }
  }

  lemma XorConcat(a: Poly, b: Poly, c: Poly, d: Poly)
    requires |a| == |c| && |b| == |d|
    ensures Xor(a + b, c + d) == Xor(a, c) + Xor(b, d)
  {
  }

  /** The register's run is linear in its start value and its input together. */
  lemma RunLinear(s: Poly, a: Poly, t: Poly, b: Poly)
    requires |s| == |t| == DEGREE && |a| == |b|
    ensures Run(Xor(s, t), Xor(a, b)) == Xor(Run(s, a), Run(t, b))
  {
    RunDivides(s, a);
    RunDivides(t, b);
    RunDivides(Xor(s, t), Xor(a, b));
    DividesXor(s + a, Shifted(s, a), Run(s, a), t + b, Shifted(t, b), Run(t, b));
    XorConcat(s, a, t, b);
    RemainderUnique(Xor(s, t) + Xor(a, b), Shifted(Xor(s, t), Xor(a, b)), Run(Xor(s, t), Xor(a, b)),
                    Xor(Shifted(s, a), Shifted(t, b)), Xor(Run(s, a), Run(t, b)));
  }

  lemma CrcLinear(s: Poly, a: Poly, t: Poly, b: Poly)
    requires |s| == |t| == DEGREE && |a| == |b|
    ensures Crc(Xor(s, t), Xor(a, b)) == Xor(Crc(s, a), Crc(t, b))
  {
    var z := Zeros(DEGREE);
    RunLinear(s, a + z, t, b + z);
    XorConcat(a, z, b, z);
    XorIsZero(z, z);
    assert Xor(z, z) == z;
  }

  lemma {:induction false} RunConcat(r: Poly, a: Poly, b: Poly)
    requires |r| == DEGREE
    ensures Run(r, a + b) == Run(Run(r, a), b)
    decreases |b|
  {
    if b == [] {
      assert a + b == a;
    } else {
      var n := |b| - 1;
      RunConcat(r, a, b[..n]);
      assert (a + b)[..|a + b| - 1] == a + b[..n];
    }
  }

  /** Zero bits keep an empty register empty, and empty no other. */
  lemma {:induction false} RunZeros(r: Poly, n: nat)
    requires |r| == DEGREE
    ensures Run(r, Zeros(n)) == Zeros(DEGREE) <==> r == Zeros(DEGREE)
  {
    if n > 0 {
      RunZeros(r, n - 1);
      assert Zeros(n)[..n - 1] == Zeros(n - 1);
      StepZero(Run(r, Zeros(n - 1)));
    }
  }

  lemma StepZero(r: Poly)
    requires |r| == DEGREE
    ensures Step(r, false) == Zeros(DEGREE) <==> r == Zeros(DEGREE)
  {
    var next := Step(r, false);
    var shifted := r[1..] + [false];
    assert r[0] ==> next[15] == (shifted[15] != Low()[15]);
    if next == Zeros(DEGREE) && !r[0] {
      assert forall i :: 0 < i < DEGREE ==> r[i] == shifted[i - 1];
    }
  }

  lemma ProductZeros(n: nat)
    ensures Product(Zeros(n)) == Zeros(n + DEGREE)
  {
    ProductXor(Zeros(n), Zeros(n));
    XorIsZero(Zeros(n), Zeros(n));
    XorIsZero(Product(Zeros(n)), Product(Zeros(n)));
  }

  /** After 16 more bits the register holds their difference to the CRC of those before. */
  lemma AfterChecksum(start: Poly, bits: Poly, c: Poly)
    requires |start| == |c| == DEGREE
    ensures Run(start, bits + c) == Xor(Crc(start, bits), c)
  {
    var z := Zeros(DEGREE);
    RunLinear(start, bits + z, z, Zeros(|bits|) + c);
    XorConcat(bits, z, Zeros(|bits|), c);
    XorZero(start);
    XorZero(bits);
    ZeroXor(c);
    LowRun(|bits|, c);
  }

  lemma XorZero(a: Poly)
    ensures Xor(a, Zeros(|a|)) == a
  {
  }

  lemma ZeroXor(a: Poly)
    ensures Xor(Zeros(|a|), a) == a
  {
  }

  lemma LowRun(n: nat, c: Poly)
    requires |c| == DEGREE
    ensures Run(Zeros(DEGREE), Zeros(n) + c) == c
  {
    var z := Zeros(DEGREE);
    RunDivides(z, Zeros(n) + c);
    LowDivides(n, c);
    RemainderUnique(z + (Zeros(n) + c), Zeros(n + DEGREE), c, Shifted(z, Zeros(n) + c), Run(z, Zeros(n) + c));
  }

  lemma LowDivides(n: nat, c: Poly)
    requires |c| == DEGREE
    ensures Divides(Zeros(DEGREE) + (Zeros(n) + c), Zeros(n + DEGREE), c)
  {
    ProductZeros(n + DEGREE);
    assert Zeros(DEGREE) + (Zeros(n) + c) == Zeros(n + DEGREE) + c;
    ZeroXor(Zeros(n + DEGREE) + c);
  }

  /** The CRC of a message with 16 more bits after it is zero exactly when those bits are the
      message's own CRC. */
  lemma ChecksumChecks(start: Poly, bits: Poly, c: Poly)
    requires |start| == |c| == DEGREE
    ensures Crc(start, bits + c) == Zeros(DEGREE) <==> c == Crc(start, bits)
  {
    RunConcat(start, bits + c, Zeros(DEGREE));
    AfterChecksum(start, bits, c);
    RunZeros(Run(start, bits + c), DEGREE);
    XorIsZero(Crc(start, bits), c);
  }

  // Bytes and words.

  function Bit8(b: bv8, k: nat): bool
    requires k < 8
  {
    (b >> (7 - k)) & 1 == 1
  }

  function Bits8(b: bv8): (bits: Poly)
    ensures |bits| == 8
  {
    seq(8, k requires 0 <= k < 8 => Bit8(b, k))
  }

  function Bits(bytes: seq<bv8>): (bits: Poly)
    ensures |bits| == 8 * |bytes|
  {
    if bytes == [] then [] else Bits(bytes[..|bytes| - 1]) + Bits8(bytes[|bytes| - 1])
  }

  const POLY: bv32 := 0x1021

  /** Coefficient k of the register, the highest first. */
  function RegBit(w: bv32, k: nat): bool
    requires k < DEGREE
  {
    match k
    case 0 => w & 0x8000 != 0
    case 1 => w & 0x4000 != 0
    case 2 => w & 0x2000 != 0
    case 3 => w & 0x1000 != 0
    case 4 => w & 0x800 != 0
    case 5 => w & 0x400 != 0
    case 6 => w & 0x200 != 0
    case 7 => w & 0x100 != 0
    case 8 => w & 0x80 != 0
    case 9 => w & 0x40 != 0
    case 10 => w & 0x20 != 0
    case 11 => w & 0x10 != 0
    case 12 => w & 0x8 != 0
    case 13 => w & 0x4 != 0
    case 14 => w & 0x2 != 0
    case _ => w & 0x1 != 0
  }

  /** The low 16 bits of a word; the register is never masked. */
  function Reg(w: bv32): (r: Poly)
    ensures |r| == DEGREE && forall k :: 0 <= k < DEGREE ==> r[k] == RegBit(w, k)
  {
    seq(DEGREE, k requires 0 <= k < DEGREE => RegBit(w, k))
  }

  /** The body of the loops. */
  function Fed(crc: bv32, bit: bv32): bv32 {
    ((crc << 1) | bit) ^ (if crc & 0x8000 != 0 then POLY else 0)
  }

  /** The low bits of v are those of w, one place up. */
  predicate ShiftOf(w: bv32, v: bv32) {
    && (v & 0x8000 != 0 <==> w & 0x4000 != 0)
    && (v & 0x4000 != 0 <==> w & 0x2000 != 0)
    && (v & 0x2000 != 0 <==> w & 0x1000 != 0)
    && (v & 0x1000 != 0 <==> w & 0x800 != 0)
    && (v & 0x800 != 0 <==> w & 0x400 != 0)
    && (v & 0x400 != 0 <==> w & 0x200 != 0)
    && (v & 0x200 != 0 <==> w & 0x100 != 0)
    && (v & 0x100 != 0 <==> w & 0x80 != 0)
    && (v & 0x80 != 0 <==> w & 0x40 != 0)
    && (v & 0x40 != 0 <==> w & 0x20 != 0)
    && (v & 0x20 != 0 <==> w & 0x10 != 0)
    && (v & 0x10 != 0 <==> w & 0x8 != 0)
    && (v & 0x8 != 0 <==> w & 0x4 != 0)
    && (v & 0x4 != 0 <==> w & 0x2 != 0)
    && (v & 0x2 != 0 <==> w & 0x1 != 0)
  }

  lemma BitsShift(w: bv32, bit: bv32)
    requires bit == 0 || bit == 1
    ensures ShiftOf(w, (w << 1) | bit)
    ensures ((w << 1) | bit) & 1 != 0 <==> bit == 1
  {
  }

  lemma ShiftedBit(w: bv32, v: bv32, k: nat)
    requires ShiftOf(w, v) && k < 15
    ensures RegBit(v, k) == RegBit(w, k + 1)
  {
    if k == 0 { assert RegBit(v, 0) == RegBit(w, 1); }
    else if k == 1 { assert RegBit(v, 1) == RegBit(w, 2); }
    else if k == 2 { assert RegBit(v, 2) == RegBit(w, 3); }
    else if k == 3 { assert RegBit(v, 3) == RegBit(w, 4); }
    else if k == 4 { assert RegBit(v, 4) == RegBit(w, 5); }
    else if k == 5 { assert RegBit(v, 5) == RegBit(w, 6); }
    else if k == 6 { assert RegBit(v, 6) == RegBit(w, 7); }
    else if k == 7 { assert RegBit(v, 7) == RegBit(w, 8); }
    else if k == 8 { assert RegBit(v, 8) == RegBit(w, 9); }
    else if k == 9 { assert RegBit(v, 9) == RegBit(w, 10); }
    else if k == 10 { assert RegBit(v, 10) == RegBit(w, 11); }
    else if k == 11 { assert RegBit(v, 11) == RegBit(w, 12); }
    else if k == 12 { assert RegBit(v, 12) == RegBit(w, 13); }
    else if k == 13 { assert RegBit(v, 13) == RegBit(w, 14); }
    else if k == 14 { assert RegBit(v, 14) == RegBit(w, 15); }
  }

  lemma ShiftedIn(w: bv32, bit: bv32)
    requires bit == 0 || bit == 1
    ensures Reg((w << 1) | bit) == Reg(w)[1..] + [bit == 1]
  {
    BitsShift(w, bit);
    var left, right := Reg((w << 1) | bit), Reg(w)[1..] + [bit == 1];
    forall k | 0 <= k < DEGREE
      ensures left[k] == right[k]
    {
      if k < 15 {
        ShiftedBit(w, (w << 1) | bit, k);
      }
    }
  }

  /** v is w with the generator's coefficients flipped. */
  predicate FlipOf(w: bv32, v: bv32) {
    && (v & 0x8000 != 0 <==> w & 0x8000 != 0)
    && (v & 0x4000 != 0 <==> w & 0x4000 != 0)
    && (v & 0x2000 != 0 <==> w & 0x2000 != 0)
    && (v & 0x1000 != 0 <==> w & 0x1000 == 0)
    && (v & 0x800 != 0 <==> w & 0x800 != 0)
    && (v & 0x400 != 0 <==> w & 0x400 != 0)
    && (v & 0x200 != 0 <==> w & 0x200 != 0)
    && (v & 0x100 != 0 <==> w & 0x100 != 0)
    && (v & 0x80 != 0 <==> w & 0x80 != 0)
    && (v & 0x40 != 0 <==> w & 0x40 != 0)
    && (v & 0x20 != 0 <==> w & 0x20 == 0)
    && (v & 0x10 != 0 <==> w & 0x10 != 0)
    && (v & 0x8 != 0 <==> w & 0x8 != 0)
    && (v & 0x4 != 0 <==> w & 0x4 != 0)
    && (v & 0x2 != 0 <==> w & 0x2 != 0)
    && (v & 0x1 != 0 <==> w & 0x1 == 0)
  }

  lemma BitsFlip(w: bv32)
    ensures FlipOf(w, w ^ POLY)
  {
  }

  lemma FlippedBit(w: bv32, v: bv32, k: nat)
    requires FlipOf(w, v) && k < DEGREE
    ensures RegBit(v, k) == (RegBit(w, k) != (k == 3 || k == 10 || k == 15))
  {
    if k == 0 { assert RegBit(v, 0) == RegBit(w, 0); }
    else if k == 1 { assert RegBit(v, 1) == RegBit(w, 1); }
    else if k == 2 { assert RegBit(v, 2) == RegBit(w, 2); }
    else if k == 3 { assert RegBit(v, 3) == !RegBit(w, 3); }
    else if k == 4 { assert RegBit(v, 4) == RegBit(w, 4); }
    else if k == 5 { assert RegBit(v, 5) == RegBit(w, 5); }
    else if k == 6 { assert RegBit(v, 6) == RegBit(w, 6); }
    else if k == 7 { assert RegBit(v, 7) == RegBit(w, 7); }
    else if k == 8 { assert RegBit(v, 8) == RegBit(w, 8); }
    else if k == 9 { assert RegBit(v, 9) == RegBit(w, 9); }
    else if k == 10 { assert RegBit(v, 10) == !RegBit(w, 10); }
    else if k == 11 { assert RegBit(v, 11) == RegBit(w, 11); }
    else if k == 12 { assert RegBit(v, 12) == RegBit(w, 12); }
    else if k == 13 { assert RegBit(v, 13) == RegBit(w, 13); }
    else if k == 14 { assert RegBit(v, 14) == RegBit(w, 14); }
    else { assert RegBit(v, 15) == !RegBit(w, 15); }
  }

  lemma PolyAdded(w: bv32)
    ensures Reg(w ^ POLY) == Xor(Reg(w), Low())
  {
    BitsFlip(w);
    var left, right := Reg(w ^ POLY), Xor(Reg(w), Low());
    forall k | 0 <= k < DEGREE
      ensures left[k] == right[k]
    {
      FlippedBit(w, w ^ POLY, k);
    }
  }

  lemma FedIsStep(crc: bv32, bit: bv32)
    requires bit == 0 || bit == 1
    ensures Reg(Fed(crc, bit)) == Step(Reg(crc), bit == 1)
  {
    var v := (crc << 1) | bit;
    ShiftedIn(crc, bit);
    TopBit(crc);
    if crc & 0x8000 != 0 {
      PolyAdded(v);
    } else {
      XorNothing(v);
    }
  }

  lemma TopBit(w: bv32)
    ensures Reg(w)[0] <==> w & 0x8000 != 0
  {
    assert Reg(w)[0] == RegBit(w, 0);
  }

  lemma XorNothing(w: bv32)
    ensures w ^ 0 == w
  {
  }

  lemma RunBit(r: Poly, start: Poly, before: Poly, bits: Poly, k: nat)
    requires |start| == |r| == DEGREE && k < |bits| && r == Run(start, before + bits[..k])
    ensures Step(r, bits[k]) == Run(start, before + bits[..k + 1])
  {
    RunNext(start, before + bits[..k], bits[k]);
    TakeMore(before, bits, k);
  }

  lemma TakeMore(before: Poly, bits: Poly, k: nat)
    requires k < |bits|
    ensures before + bits[..k] + [bits[k]] == before + bits[..k + 1]
  {
    assert bits[..k + 1] == bits[..k] + [bits[k]];
  }

  lemma RunZero(r: Poly, start: Poly, bits: Poly, n: nat)
    requires |start| == |r| == DEGREE && r == Run(start, bits + Zeros(n))
    ensures Step(r, false) == Run(start, bits + Zeros(n + 1))
  {
    assert Zeros(n + 1)[..n] == Zeros(n) && Zeros(n + 1)[..n + 1] == Zeros(n + 1);
    RunBit(r, start, bits, Zeros(n + 1), n);
  }

  lemma ByteDone(bytes: seq<bv8>, i: nat)
    requires i < |bytes|
    ensures Bits(bytes[..i]) + Bits8(bytes[i]) == Bits(bytes[..i + 1])
  {
    assert bytes[..i + 1][..i] == bytes[..i];
  }

  lemma RunNext(r: Poly, bits: Poly, b: bool)
    requires |r| == DEGREE
    ensures Run(r, bits + [b]) == Step(Run(r, bits), b)
  {
    assert (bits + [b])[..|bits|] == bits;
  }

  /** crc16_ccitt; a missing buffer gives -1. */
  method Crc16Ccitt(buf: array?<bv8>, startingVal: bv32) returns (result: bv16)
    ensures buf == null ==> result == 0xFFFF
    ensures buf != null ==> Reg(result as bv32) == Crc(Reg(startingVal), Bits(buf[..]))
  {
    if buf == null {
      return 0xFFFF;
    }
    var crc := startingVal;
    ghost var start := Reg(startingVal);
    var i := 0;
    while i < buf.Length
      invariant 0 <= i <= buf.Length && Reg(crc) == Run(start, Bits(buf[..i]))
    {
      crc := FeedByte(crc, buf[..], i, start);
      i := i + 1;
    }
    assert buf[..i] == buf[..];
    crc := FeedZeros(crc, Bits(buf[..]), start);
    result := LowHalf(crc);
  }

  /** The 16 zero bits after the message. */
  method FeedZeros(from: bv32, ghost bits: Poly, ghost start: Poly) returns (crc: bv32)
    requires |start| == DEGREE && Reg(from) == Run(start, bits)
    ensures Reg(crc) == Crc(start, bits)
  {
    crc := from;
    var n := 0;
    assert bits + Zeros(0) == bits;
    while n < 16
      invariant 0 <= n <= 16 && Reg(crc) == Run(start, bits + Zeros(n))
    {
      FedIsStep(crc, 0);
      WithoutBit(crc);
      RunZero(Reg(crc), start, bits, n);
      crc := (crc << 1) ^ (if crc & 0x8000 != 0 then POLY else 0);
      n := n + 1;
    }
  }

  lemma WithoutBit(crc: bv32)
    ensures (crc << 1) ^ (if crc & 0x8000 != 0 then POLY else 0) == Fed(crc, 0)
  {
    OrNothing(crc << 1);
  }

  function LowHalf(crc: bv32): (half: bv16)
    ensures Reg(half as bv32) == Reg(crc)
  {
    LowWord(crc);
    RegOfLow(crc);
    (crc & 0xffff) as bv16
  }

  lemma OrNothing(w: bv32)
    ensures w | 0 == w
  {
  }

  lemma LowWord(w: bv32)
    ensures w & 0xffff <= 0xffff && ((w & 0xffff) as bv16) as bv32 == w & 0xffff
  {
  }

  lemma LowBit(w: bv32, k: nat)
    requires k < DEGREE
    ensures RegBit(w & 0xffff, k) == RegBit(w, k)
  {
  }

  lemma RegOfLow(w: bv32)
    ensures Reg(w & 0xffff) == Reg(w)
  {
    forall k | 0 <= k < DEGREE
      ensures Reg(w & 0xffff)[k] == Reg(w)[k]
    {
      LowBit(w, k);
    }
  }

  /** The bits of one byte, the highest first. */
  method FeedByte(from: bv32, bytes: seq<bv8>, i: nat, ghost start: Poly) returns (crc: bv32)
    requires i < |bytes| && |start| == DEGREE && Reg(from) == Run(start, Bits(bytes[..i]))
    ensures Reg(crc) == Run(start, Bits(bytes[..i + 1]))
  {
    ghost var bits := Bits8(bytes[i]);
    forall k | 0 <= k < 8 ensures IsBit(bits, bytes[i], k) { }
    crc := FeedBits(from, bytes[i], bits, Bits(bytes[..i]), start);
    ByteDone(bytes, i);
  }

  ghost predicate IsBit(bits: Poly, byte: bv8, k: nat)
    requires k < |bits| == 8
  {
    bits[k] == Bit8(byte, k)
  }

  /** The loop over the bits. */
  method FeedBits(from: bv32, byte: bv8, ghost bits: Poly, ghost before: Poly, ghost start: Poly) returns (crc: bv32)
    requires |bits| == 8 && |start| == DEGREE && forall k :: 0 <= k < 8 ==> IsBit(bits, byte, k)
    requires Reg(from) == Run(start, before)
    ensures Reg(crc) == Run(start, before + bits)
  {
    assert before + bits[..0] == before && before + bits[..8] == before + bits;
    crc := from;
    var bit := 7;
    while bit >= 0
      invariant -1 <= bit <= 7 && Reg(crc) == Run(start, before + bits[..7 - bit])
    {
      crc := FeedBit(crc, byte, bit, bits, before, start);
      bit := bit - 1;
    }
  }

  method FeedBit(from: bv32, byte: bv8, bit: nat, ghost bits: Poly, ghost before: Poly, ghost start: Poly)
    returns (crc: bv32)
    requires bit < 8 && |bits| == 8 && |start| == DEGREE && IsBit(bits, byte, 7 - bit)
    requires Reg(from) == Run(start, before + bits[..7 - bit])
    ensures Reg(crc) == Run(start, before + bits[..8 - bit])
  {
    var b := InputBit(byte, bit);
    FedNext(from, b, bits, 7 - bit, before, start);
    crc := Fed(from, b);
  }

  lemma FedNext(from: bv32, b: bv32, bits: Poly, k: nat, before: Poly, start: Poly)
    requires (b == 0 || b == 1) && k < |bits| && |start| == DEGREE && bits[k] == (b == 1)
    requires Reg(from) == Run(start, before + bits[..k])
    ensures Reg(Fed(from, b)) == Run(start, before + bits[..k + 1])
  {
    FedIsStep(from, b);
    RunBit(Reg(from), start, before, bits, k);
  }

  /** (byte >> bit) & 1, as the register takes it. */
  function InputBit(byte: bv8, bit: nat): (b: bv32)
    requires bit < 8
    ensures (b == 0 || b == 1) && (b == 1 <==> Bit8(byte, 7 - bit))
  {
    if (byte >> bit) & 1 == 1 then 1 else 0
  }

  // The checksum stored with the message.

  /** Two bytes as a big-endian number, which is what swapping the bytes of a word loaded from
      memory gives. */
  function BigEndian(high: bv8, low: bv8): bv32 {
    ((high as bv32) << 8) | (low as bv32)
  }

  predicate SameLow(a: bv32, b: bv32) {
    && (a & 0x8000 != 0 <==> b & 0x8000 != 0)
    && (a & 0x4000 != 0 <==> b & 0x4000 != 0)
    && (a & 0x2000 != 0 <==> b & 0x2000 != 0)
    && (a & 0x1000 != 0 <==> b & 0x1000 != 0)
    && (a & 0x800 != 0 <==> b & 0x800 != 0)
    && (a & 0x400 != 0 <==> b & 0x400 != 0)
    && (a & 0x200 != 0 <==> b & 0x200 != 0)
    && (a & 0x100 != 0 <==> b & 0x100 != 0)
    && (a & 0x80 != 0 <==> b & 0x80 != 0)
    && (a & 0x40 != 0 <==> b & 0x40 != 0)
    && (a & 0x20 != 0 <==> b & 0x20 != 0)
    && (a & 0x10 != 0 <==> b & 0x10 != 0)
    && (a & 0x8 != 0 <==> b & 0x8 != 0)
    && (a & 0x4 != 0 <==> b & 0x4 != 0)
    && (a & 0x2 != 0 <==> b & 0x2 != 0)
    && (a & 0x1 != 0 <==> b & 0x1 != 0)
  }

  lemma SameBit(a: bv32, b: bv32, k: nat)
    requires Reg(a) == Reg(b) && k < DEGREE
    ensures RegBit(a, k) == RegBit(b, k)
  {
    assert Reg(a)[k] == Reg(b)[k];
  }

  lemma SameReg(a: bv32, b: bv32)
    requires Reg(a) == Reg(b)
    ensures SameLow(a, b)
  {
    SameBit(a, b, 0); SameBit(a, b, 1); SameBit(a, b, 2); SameBit(a, b, 3);
    SameBit(a, b, 4); SameBit(a, b, 5); SameBit(a, b, 6); SameBit(a, b, 7);
    SameBit(a, b, 8); SameBit(a, b, 9); SameBit(a, b, 10); SameBit(a, b, 11);
    SameBit(a, b, 12); SameBit(a, b, 13); SameBit(a, b, 14); SameBit(a, b, 15);
  }

  lemma RegInjective(a: bv32, b: bv32)
    requires a & 0xffff == a && b & 0xffff == b && Reg(a) == Reg(b)
    ensures a == b
  {
    SameReg(a, b);
    SameWords(a, b);
  }

  lemma SameWords(a: bv32, b: bv32)
    requires SameLow(a, b) && a & 0xffff == a && b & 0xffff == b
    ensures a == b
  {
  }

  lemma BigEndianBit(high: bv8, low: bv8, w: bv32, k: nat)
    requires w == BigEndian(high, low) && k < DEGREE
    ensures RegBit(w, k) == if k < 8 then Bit8(high, k) else Bit8(low, k - 8)
  {
    if k == 0 { assert RegBit(w, 0) == Bit8(high, 0); }
    else if k == 1 { assert RegBit(w, 1) == Bit8(high, 1); }
    else if k == 2 { assert RegBit(w, 2) == Bit8(high, 2); }
    else if k == 3 { assert RegBit(w, 3) == Bit8(high, 3); }
    else if k == 4 { assert RegBit(w, 4) == Bit8(high, 4); }
    else if k == 5 { assert RegBit(w, 5) == Bit8(high, 5); }
    else if k == 6 { assert RegBit(w, 6) == Bit8(high, 6); }
    else if k == 7 { assert RegBit(w, 7) == Bit8(high, 7); }
    else if k == 8 { assert RegBit(w, 8) == Bit8(low, 0); }
    else if k == 9 { assert RegBit(w, 9) == Bit8(low, 1); }
    else if k == 10 { assert RegBit(w, 10) == Bit8(low, 2); }
    else if k == 11 { assert RegBit(w, 11) == Bit8(low, 3); }
    else if k == 12 { assert RegBit(w, 12) == Bit8(low, 4); }
    else if k == 13 { assert RegBit(w, 13) == Bit8(low, 5); }
    else if k == 14 { assert RegBit(w, 14) == Bit8(low, 6); }
    else { assert RegBit(w, 15) == Bit8(low, 7); }
  }

  lemma BigEndianBits(high: bv8, low: bv8)
    ensures Reg(BigEndian(high, low)) == Bits8(high) + Bits8(low)
    ensures BigEndian(high, low) & 0xffff == BigEndian(high, low)
  {
    var w := BigEndian(high, low);
    forall k | 0 <= k < DEGREE
      ensures Reg(w)[k] == (Bits8(high) + Bits8(low))[k]
    {
      BigEndianBit(high, low, w, k);
    }
  }

  lemma RegOfZero()
    ensures Reg(0) == Zeros(DEGREE)
  {
  }

  lemma BitsOfTwo(bytes: seq<bv8>, high: bv8, low: bv8)
    ensures Bits(bytes + [high, low]) == Bits(bytes) + (Bits8(high) + Bits8(low))
  {
    var one := bytes + [high];
    assert bytes + [high, low] == one + [low];
    assert (one + [low])[..|one|] == one && one[..|bytes|] == bytes;
  }

  /** miiSelectorChecksumIsValid, for the checksum's two bytes as they lie in memory: it accepts
      exactly when the CRC of the data and the checksum together is zero. */
  method ChecksumIsValid(data: array<bv8>, high: bv8, low: bv8) returns (valid: bool)
    ensures valid <==> Crc(Zeros(DEGREE), Bits(data[..] + [high, low])) == Zeros(DEGREE)
  {
    var computed := Crc16Ccitt(data, 0);
    var stored := BigEndian(high, low);
    RegOfZero();
    BigEndianBits(high, low);
    BitsOfTwo(data[..], high, low);
    ChecksumChecks(Zeros(DEGREE), Bits(data[..]), Bits8(high) + Bits8(low));
    valid := computed as bv32 == stored;
    WordFits(computed);
    if Reg(computed as bv32) == Reg(stored) {
      RegInjective(computed as bv32, stored);
    }
  }

  lemma WordFits(w: bv16)
    ensures (w as bv32) & 0xffff == w as bv32
  {
  }

  // Two values, which fix the generator and the order of the bits.

  function FedZeros(w: bv32, n: nat): bv32 {
    if n == 0 then w else Fed(FedZeros(w, n - 1), 0)
  }

  lemma {:induction false} FedZerosRun(w: bv32, n: nat)
    ensures Reg(FedZeros(w, n)) == Run(Reg(w), Zeros(n))
  {
    if n > 0 {
      FedZerosRun(w, n - 1);
      FedIsStep(FedZeros(w, n - 1), 0);
      assert Zeros(n)[..n - 1] == Zeros(n - 1);
    }
  }

  /** One byte in an empty register. */
  lemma ByteEnters(b: bv8)
    ensures Run(Zeros(DEGREE), Bits8(b)) == Reg(BigEndian(0, b))
  {
    BigEndianBits(0, b);
    ZeroByte();
    RunConcat(Zeros(DEGREE), Bits8(0), Bits8(b));
    RunZeros(Zeros(DEGREE), 8);
    LowRun(0, Reg(BigEndian(0, b)));
    assert Zeros(0) + Reg(BigEndian(0, b)) == Bits8(0) + Bits8(b);
  }

  lemma ZeroByte()
    ensures Bits8(0) == Zeros(8)
  {
  }

  lemma CrcOfByte(b: bv8)
    ensures Crc(Zeros(DEGREE), Bits([b])) == Reg(FedZeros(BigEndian(0, b), 16))
  {
    var w := BigEndian(0, b);
    assert Bits([b]) == Bits8(b) by { assert [b][..0] == []; }
    RunConcat(Zeros(DEGREE), Bits8(b), Zeros(DEGREE));
    ByteEnters(b);
    FedZerosRun(w, 16);
  }

  /** The byte 1 gives the generator itself, 0x1021, and the byte 0x80 gives 0x9188. */
  lemma KnownValues()
    ensures Crc(Zeros(DEGREE), Bits([0x01])) == Reg(0x1021)
    ensures Crc(Zeros(DEGREE), Bits([0x80])) == Reg(0x9188)
  {
    CrcOfByte(0x01);
    CrcOfByte(0x80);
    FedOne();
    FedTop();
    RegOfLow(FedZeros(0x01, 16));
    RegOfLow(FedZeros(0x80, 16));
  }

  lemma FedOne()
    ensures FedZeros(0x01, 16) & 0xffff == 0x1021
  {
    var w: bv32 := 0x01;
    assert FedZeros(w, 1) == 0x2 && FedZeros(w, 2) == 0x4 && FedZeros(w, 3) == 0x8;
    assert FedZeros(w, 4) == 0x10 && FedZeros(w, 5) == 0x20 && FedZeros(w, 6) == 0x40;
    assert FedZeros(w, 7) == 0x80 && FedZeros(w, 8) == 0x100 && FedZeros(w, 9) == 0x200;
    assert FedZeros(w, 10) == 0x400 && FedZeros(w, 11) == 0x800 && FedZeros(w, 12) == 0x1000;
    assert FedZeros(w, 13) == 0x2000 && FedZeros(w, 14) == 0x4000 && FedZeros(w, 15) == 0x8000;
    assert FedZeros(w, 16) == 0x11021;
  }

  lemma FedTop()
    ensures FedZeros(0x80, 16) & 0xffff == 0x9188
  {
    var w: bv32 := 0x80;
    assert FedZeros(w, 1) == 0x100 && FedZeros(w, 2) == 0x200 && FedZeros(w, 3) == 0x400;
    assert FedZeros(w, 4) == 0x800 && FedZeros(w, 5) == 0x1000 && FedZeros(w, 6) == 0x2000;
    assert FedZeros(w, 7) == 0x4000 && FedZeros(w, 8) == 0x8000 && FedZeros(w, 9) == 0x11021;
    assert FedZeros(w, 10) == 0x22042 && FedZeros(w, 11) == 0x44084 && FedZeros(w, 12) == 0x88108;
    assert FedZeros(w, 13) == 0x111231 && FedZeros(w, 14) == 0x222462 && FedZeros(w, 15) == 0x4448c4;
    assert FedZeros(w, 16) == 0x889188;
  }
}
