/** What the RomFS name hash computes, on numbers: every unit of the name, and the parent's
    seed, turned right by five places for each unit that comes after it. */
module RomFsHash {
  import opened Arithmetic
  import opened RomFs

  const WORD := 0x1_0000_0000

  lemma DoubleProduct(a: int, b: int)
    ensures 2 * (a * b) == (2 * a) * b
  {
  }

  lemma {:induction false} Pow2Add(m: nat, n: nat)
    ensures Pow2(m + n) == Pow2(m) * Pow2(n)
  {
    if m > 0 {
      var p, q := Pow2(m - 1), Pow2(n);
      Pow2Add(m - 1, n);
      assert Pow2(m + n) == 2 * Pow2(m - 1 + n) == 2 * (p * q);
      DoubleProduct(p, q);
    }
  }

  lemma Pow2Values()
    ensures Pow2(5) == 32 && Pow2(27) == 0x800_0000 && Pow2(32) == WORD
  {
    assert Pow2(4) == 16;
    assert Pow2(8) == 256;
    Pow2Add(8, 8);
    Pow2Add(16, 16);
    Pow2Add(16, 8);
    Pow2Add(24, 3);
  }

  lemma PartsAreNat(x: nat, p: nat, n: nat)
    requires p > 0
    ensures x / p >= 0 && x % p * n >= 0
  {
    MulMonotone(n, 0, x % p);
    assert n * (x % p) == x % p * n;
  }

  /** A 32-bit number turned right by k places: the low k bits come to the top. */
  function Turn(x: nat, k: nat): nat {
    var p, n := Pow2(k % 32), Pow2(32 - k % 32);
    PartsAreNat(x, p, n);
    x / p + x % p * n
  }

  // The arithmetic of turning twice, without the powers.

  lemma Regroup(a: int, b: int, c: int, d: int)
    ensures (a * b + c) * d == a * (b * d) + c * d
  {
    assert (a * b) * d == a * (b * d);
  }

  lemma Fits(q: int, m: int, p: int, n: int)
    requires 0 <= q < n && 0 <= m < p
    ensures 0 <= q * p + m < p * n
  {
    MulMonotone(p, q + 1, n);
    assert q * p == p * q && p * (q + 1) == p * q + p;
    MulMonotone(p, 0, q);
  }

  /** The quotient of a number below p * n is below n. */
  lemma QuotientBound(x: nat, p: nat, n: nat)
    requires 0 < p && x < p * n
    ensures x / p < n
  {
    assert x == p * (x / p) + x % p;
    MulMonotone(p, n, x / p);
  }

  lemma WithinFirst(q: nat, m: nat, s: nat)
    ensures var y := q + m * (s * 32); y / 32 == q / 32 + m * s && y % 32 == q % 32
  {
    Regroup(m, s, 0, 32);
    DivModUnique(q + m * (s * 32), 32, q / 32 + m * s, q % 32);
  }

  lemma WithinBoth(q: nat, m: nat, p: nat)
    requires m < p
    ensures var x := q * p + m; x / (p * 32) == q / 32 && x % (p * 32) == q % 32 * p + m
  {
    var q1, q0 := q / 32, q % 32;
    Fits(q0, m, p, 32);
    Regroup(q1, 32, q0, p);
    assert q1 * (32 * p) == p * 32 * q1;
    DivModUnique(q * p + m, p * 32, q1, q0 * p + m);
  }

  /** Five places more within the word; p and s are 2^r and 2^(27 - r). */
  lemma TurnWithin(q: nat, m: nat, p: nat, s: nat)
    requires m < p
    ensures var x, y := q * p + m, q + m * (s * 32);
            y / 32 + y % 32 * (p * s) == x / (p * 32) + x % (p * 32) * s
  {
    WithinFirst(q, m, s);
    WithinBoth(q, m, p);
    Regroup(q % 32, p, m, s);
  }

  lemma AcrossFirst(q: nat, m: nat, s: nat, t: nat)
    requires 0 < t && s * t == 32 && q < s
    ensures var y := q + m * s; y / 32 == m / t && y % 32 == q + m % t * s
  {
    var m1, m0 := m / t, m % t;
    Fits(m0, q, s, t);
    Regroup(m1, t, m0, s);
    assert m1 * (t * s) == 32 * m1 by { assert t * s == s * t; }
    assert m == m1 * t + m0;
    DivModUnique(q + m * s, 32, m1, q + m0 * s);
  }

  lemma AcrossBoth(q: nat, m: nat, t: nat, c: nat)
    requires 0 < t
    ensures var x := q * (c * t) + m; x / t == q * c + m / t && x % t == m % t
  {
    assert q * (c * t) == t * (q * c);
    assert t * (q * c) + t * (m / t) == t * (q * c + m / t);
    DivModUnique(q * (c * t) + m, t, q * c + m / t, m % t);
  }

  /** Five places more, past the end of the word; s and t are 2^(32 - r) and 2^(r - 27). */
  lemma TurnAcross(q: nat, m: nat, s: nat, t: nat, c: nat)
    requires 0 < t && s * t == 32 && q < s
    ensures var x, y := q * (c * t) + m, q + m * s;
            y / 32 + y % 32 * c == x / t + x % t * (s * c)
  {
    AcrossFirst(q, m, s, t);
    AcrossBoth(q, m, t, c);
    Regroup(m % t, s, q, c);
  }

  /** What the powers multiply to. */
  lemma PowersAt(r: nat)
    requires r < 32
    ensures Pow2(r) * Pow2(32 - r) == WORD
    ensures r < 27 ==> Pow2(32 - r) == Pow2(27 - r) * 32 && Pow2(r) * Pow2(27 - r) == 0x800_0000
    ensures r < 27 ==> Pow2(r + 5) == Pow2(r) * 32
    ensures r >= 27 ==> Pow2(32 - r) * Pow2(r - 27) == 32 && Pow2(r) == 0x800_0000 * Pow2(r - 27)
    ensures r >= 27 ==> Pow2(59 - r) == Pow2(32 - r) * 0x800_0000
  {
    Pow2Values();
    Pow2Add(r, 32 - r);
    if r < 27 {
      Pow2Add(27 - r, 5);
      Pow2Add(r, 27 - r);
      Pow2Add(r, 5);
    } else {
      Pow2Add(32 - r, r - 27);
      Pow2Add(27, r - 27);
      Pow2Add(32 - r, 27);
    }
  }

  lemma PartsBound(x: nat, p: nat, n: nat)
    requires 0 < p && x < p * n
    ensures x / p + x % p * n < p * n
  {
    QuotientBound(x, p, n);
    Fits(x % p, x / p, n, p);
    assert n * p == p * n;
  }

  lemma TurnBound(x: nat, k: nat)
    requires x < WORD
    ensures Turn(x, k) < WORD
  {
    PowersAt(k % 32);
    PartsBound(x, Pow2(k % 32), Pow2(32 - k % 32));
  }

  lemma TurnFive(x: nat)
    ensures Turn(x, 5) == x / 32 + x % 32 * 0x800_0000
  {
    Pow2Values();
  }

  lemma FiveWithin(x: nat, p: nat, s: nat)
    requires 0 < p
    ensures var y := x / p + x % p * (s * 32);
            y / 32 + y % 32 * (p * s) == x / (p * 32) + x % (p * 32) * s
  {
    var q, m := x / p, x % p;
    assert x == q * p + m;
    TurnWithin(q, m, p, s);
  }

  lemma Products(s: nat, t: nat, c: nat)
    requires 0 < t && 0 < c && s * t == 32
    ensures 0 < c * t && c * t * s == c * 32
  {
    MulMonotone(t, 1, c);
    assert t * c == c * t;
    assert c * t * s == c * (t * s) && t * s == s * t;
  }

  lemma FiveAcross(x: nat, s: nat, t: nat, c: nat, p: nat)
    requires 0 < t && 0 < p && s * t == 32 && p == c * t && x < p * s
    ensures var y := x / p + x % p * s;
            y / 32 + y % 32 * c == x / t + x % t * (s * c)
  {
    QuotientBound(x, p, s);
    var q, m := x / p, x % p;
    assert x == q * p + m;
    TurnAcross(q, m, s, t, c);
  }

  lemma FiveLater(k: nat)
    ensures (k + 5) % 32 == if k % 32 < 27 then k % 32 + 5 else k % 32 - 27
  {
  }

  lemma TurnIs(x: nat, k: nat, p: nat, n: nat)
    requires p == Pow2(k % 32) && n == Pow2(32 - k % 32)
    ensures p > 0 && Turn(x, k) == x / p + x % p * n
  {
  }

  lemma TurnMoreWithin(x: nat, k: nat)
    requires k % 32 < 27
    ensures Turn(Turn(x, k), 5) == Turn(x, k + 5)
  {
    var r := k % 32;
    PowersAt(r);
    FiveLater(k);
    var p, s := Pow2(r), Pow2(27 - r);
    TurnIs(x, k, p, s * 32);
    TurnFive(Turn(x, k));
    FiveWithin(x, p, s);
    TurnIs(x, k + 5, p * 32, s);
  }

  lemma TurnMoreAcross(x: nat, k: nat)
    requires k % 32 >= 27 && x < WORD
    ensures Turn(Turn(x, k), 5) == Turn(x, k + 5)
  {
    var r := k % 32;
    PowersAt(r);
    FiveLater(k);
    var s, t := Pow2(32 - r), Pow2(r - 27);
    Products(s, t, 0x800_0000);
    TurnIs(x, k, 0x800_0000 * t, s);
    TurnFive(Turn(x, k));
    FiveAcross(x, s, t, 0x800_0000, 0x800_0000 * t);
    TurnIs(x, k + 5, t, s * 0x800_0000);
  }

  /** Turning by k places and five more. */
  lemma TurnFiveMore(x: nat, k: nat)
    requires x < WORD
    ensures Turn(Turn(x, k), 5) == Turn(x, k + 5)
  {
    if k % 32 < 27 { TurnMoreWithin(x, k); } else { TurnMoreAcross(x, k); }
  }

  // On words.

  lemma Halves(a: bv27, b: bv5)
    ensures (((a as bv32) << 5) | (b as bv32)) as nat == 32 * (a as nat) + (b as nat)
    ensures (((b as bv32) << 27) | (a as bv32)) as nat == 0x800_0000 * (b as nat) + (a as nat)
  {
  }

  lemma Cut(x: bv32) returns (a: bv27, b: bv5)
    ensures x == ((a as bv32) << 5) | (b as bv32)
    ensures (x >> 5) | (x << 27) == ((b as bv32) << 27) | (a as bv32)
  {
    a := (x >> 5) as bv27;
    b := (x & 31) as bv5;
  }

  lemma PartsOf(x: bv32) returns (a: nat, b: nat)
    ensures b < 32 && a < 0x800_0000
    ensures x as nat == 32 * a + b
    ensures ((x >> 5) | (x << 27)) as nat == 0x800_0000 * b + a
  {
    var high, low := Cut(x);
    Halves(high, low);
    a, b := high as nat, low as nat;
  }

  lemma TurnFiveParts(x: nat, a: nat, b: nat)
    requires b < 32 && x == 32 * a + b
    ensures Turn(x, 5) == 0x800_0000 * b + a
  {
    TurnFive(x);
  }

  /** The shifts and the or are a turn by five. */
  lemma ShiftsTurn(x: bv32)
    ensures ((x >> 5) | (x << 27)) as nat == Turn(x as nat, 5)
  {
    var a, b := PartsOf(x);
    TurnFiveParts(x as nat, a, b);
  }

  lemma Double(a: bv31, b: bv1)
    ensures (((a as bv32) << 1) | (b as bv32)) as nat == 2 * (a as nat) + (b as nat)
    ensures (((b as bv32) << 31) | (a as bv32)) as nat == 0x8000_0000 * (b as nat) + (a as nat)
  {
  }

  lemma TopCut(h: bv32) returns (a: bv31, top: bv1)
    ensures h == ((top as bv32) << 31) | (a as bv32)
  {
    top := (h >> 31) as bv1;
    a := (h & 0x7FFF_FFFF) as bv31;
  }

  lemma LowHalf(h: bv32) returns (a: bv31)
    requires h as nat < 0x8000_0000
    ensures a as nat == h as nat
  {
    var top: bv1;
    a, top := TopCut(h);
    Double(a, top);
  }

  lemma Doubled(h: bv32, n: nat) returns (w: bv32)
    requires n < WORD && h as nat == n / 2
    ensures w as nat == n
  {
    var a := LowHalf(h);
    var b: bv1 := if n % 2 == 0 then 0 else 1;
    Double(a, b);
    w := ((a as bv32) << 1) | (b as bv32);
  }

  /** Every 32-bit number is that of a word. */
  lemma {:induction false} WordOf(n: nat) returns (w: bv32)
    requires n < WORD
    ensures w as nat == n
  {
    if n == 0 {
      w := 0;
    } else {
      var h := WordOf(n / 2);
      w := Doubled(h, n);
    }
  }

  lemma NumberOfWord(n: nat)
    requires n < WORD
    ensures (n as bv32) as nat == n
  {
    var w := WordOf(n);
    assert (w as nat) as bv32 == w;
  }

  /** The word turned right by k places. */
  function Turned(x: bv32, k: nat): (y: bv32)
    ensures y as nat == Turn(x as nat, k)
  {
    TurnBound(x as nat, k);
    NumberOfWord(Turn(x as nat, k));
    Turn(x as nat, k) as bv32
  }

  lemma SameNumber(x: bv32, y: bv32)
    requires x as nat == y as nat
    ensures x == y
  {
    assert (x as nat) as bv32 == x;
    assert (y as nat) as bv32 == y;
  }

  lemma ShiftedTo(x: bv32, y: bv32)
    requires y as nat == Turn(x as nat, 5)
    ensures (x >> 5) | (x << 27) == y
  {
    ShiftsTurn(x);
    SameNumber((x >> 5) | (x << 27), y);
  }

  lemma TurnedMore(x: bv32, k: nat)
    ensures (Turned(x, k) >> 5) | (Turned(x, k) << 27) == Turned(x, k + 5)
  {
    TurnFiveMore(x as nat, k);
    ShiftedTo(Turned(x, k), Turned(x, k + 5));
  }

  lemma TurnedNone(x: bv32)
    ensures Turned(x, 0) == x
  {
    assert Turn(x as nat, 0) == x as nat;
  }

  // The fold over the name, for any words, exclusive-or and turns that obey these laws.

  ghost predicate Distributes<W(!new)>(five: W -> W, xor: (W, W) -> W) {
    forall x, y :: five(xor(x, y)) == xor(five(x), five(y))
  }

  ghost predicate IsTurn<W(!new)>(five: W -> W, turn: (W, nat) -> W) {
    && (forall x, k: nat :: five(turn(x, k)) == turn(x, k + 5))
    && forall x :: turn(x, 0) == x
  }

  function Fold<W>(five: W -> W, xor: (W, W) -> W, seed: W, units: seq<W>): W {
    if units == [] then seed
    else xor(five(Fold(five, xor, seed, units[..|units| - 1])), units[|units| - 1])
  }

  /** The seed turned by five for each of n units, exclusive-or the first m units, each turned
      by five for every unit behind it. */
  function AllTurned<W>(xor: (W, W) -> W, turn: (W, nat) -> W, seed: W, units: seq<W>, m: nat, n: nat): W
    requires m <= |units| && m <= n
  {
    if m == 0 then turn(seed, 5 * n)
    else xor(AllTurned(xor, turn, seed, units, m - 1, n), turn(units[m - 1], 5 * (n - m)))
  }

  /** With one more unit behind them, all are turned by five more. */
  lemma {:induction false} AllTurnedMore<W(!new)>(five: W -> W, xor: (W, W) -> W, turn: (W, nat) -> W,
                                                  seed: W, units: seq<W>, m: nat, n: nat)
    requires Distributes(five, xor) && IsTurn(five, turn) && m <= |units| && m <= n
    ensures AllTurned(xor, turn, seed, units, m, n + 1) == five(AllTurned(xor, turn, seed, units, m, n))
  {
    if m == 0 {
      assert 5 * (n + 1) == 5 * n + 5;
    } else {
      AllTurnedMore(five, xor, turn, seed, units, m - 1, n);
      assert 5 * (n + 1 - m) == 5 * (n - m) + 5;
    }
  }

  lemma {:induction false} FoldIsAllTurned<W(!new)>(five: W -> W, xor: (W, W) -> W, turn: (W, nat) -> W,
                                                    seed: W, units: seq<W>, m: nat)
    requires Distributes(five, xor) && IsTurn(five, turn) && m <= |units|
    ensures Fold(five, xor, seed, units[..m]) == AllTurned(xor, turn, seed, units, m, m)
  {
    if m > 0 {
      FoldIsAllTurned(five, xor, turn, seed, units, m - 1);
      AllTurnedMore(five, xor, turn, seed, units, m - 1, m - 1);
      assert units[..m][..m - 1] == units[..m - 1];
    }
  }

  lemma WholeFold<W(!new)>(five: W -> W, xor: (W, W) -> W, turn: (W, nat) -> W, seed: W, units: seq<W>)
    requires Distributes(five, xor) && IsTurn(five, turn)
    ensures Fold(five, xor, seed, units) == AllTurned(xor, turn, seed, units, |units|, |units|)
  {
    FoldIsAllTurned(five, xor, turn, seed, units, |units|);
    assert units[..|units|] == units;
  }

  // The hash is such a fold.

  function Five(x: bv32): bv32 {
    (x >> 5) | (x << 27)
  }

  function Xor(x: bv32, y: bv32): bv32 {
    x ^ y
  }

  function Unit(name: Name, i: nat): bv32
    requires i < |name|
  {
    name[i] as bv32
  }

  function Units(name: Name): (units: seq<bv32>)
    ensures |units| == |name| && forall i :: 0 <= i < |name| ==> units[i] == Unit(name, i)
  {
    seq(|name|, i requires 0 <= i < |name| => Unit(name, i))
  }

  lemma FiveXor(x: bv32, y: bv32)
    ensures Five(Xor(x, y)) == Xor(Five(x), Five(y))
  {
  }

  lemma TurnedObeys()
    ensures Distributes(Five, Xor) && IsTurn(Five, Turned)
  {
    forall x, y ensures Five(Xor(x, y)) == Xor(Five(x), Five(y)) { FiveXor(x, y); }
    forall x, k: nat ensures Five(Turned(x, k)) == Turned(x, k + 5) { TurnedMore(x, k); }
    forall x ensures Turned(x, 0) == x { TurnedNone(x); }
  }

  lemma {:induction false} HashIsFold(seed: bv32, name: Name)
    ensures HashFrom(seed, name) == Fold(Five, Xor, seed, Units(name))
  {
    if name != [] {
      HashIsFold(seed, name[..|name| - 1]);
      assert Units(name)[..|name| - 1] == Units(name[..|name| - 1]);
    }
  }

  /** The hash in closed form: the seed turned right by five for each unit of the name,
      exclusive-or each unit turned right by five for each unit behind it. */
  lemma HashClosed(seed: bv32, name: Name)
    ensures HashFrom(seed, name) == AllTurned(Xor, Turned, seed, Units(name), |name|, |name|)
  {
    HashIsFold(seed, name);
    TurnedObeys();
    WholeFold(Five, Xor, Turned, seed, Units(name));
  }

  /** No name leaves the seed, and a name of one unit below the root is turned into place. */
  lemma Buckets(parent: Offset, total: nat)
    requires total > 0
    ensures Bucket(parent, [], total) == ((parent ^ 123456789) as nat) % total
    ensures Bucket(0, [0x61], 7) == 5
  {
    assert HashFrom(123456789, [0x61]) == Rotated(HashFrom(123456789, []), 0x61);
    assert HashFrom(123456789, [0x61]) == 0xA83A_DE09;
  }
}
