/** Screen capture: an image of 240 pixels a row is rewritten as Morton-ordered 8x8 tiles in rows
    of 32 tiles, and up to three such images share one memory block. */
module CaptureTiling {
  import opened Arithmetic

  type Byte = bv8

  const WIDTH := 240
  const TILES_PER_ROW := 32   // 256 / 8; only the first 30 hold pixels

  const MORTON_X: seq<nat> := [0x00, 0x01, 0x04, 0x05, 0x10, 0x11, 0x14, 0x15]
  const MORTON_Y: seq<nat> := [0x00, 0x02, 0x08, 0x0a, 0x20, 0x22, 0x28, 0x2a]

  /** The place of a pixel inside its tile, and the way back. */
  function Morton(x: nat, y: nat): (m: nat)
    requires x < 8 && y < 8
  {
    MORTON_X[x] + MORTON_Y[y]
  }

  function PixelX(m: nat): nat {
    if m == 0 then 0 else m % 2 + 2 * PixelX(m / 4)
  }

  function PixelY(m: nat): nat { PixelX(m / 2) }

  predicate Binary(b: nat) { b == 0 || b == 1 }

  /** A pixel's place interleaves the bits of its coordinates. */
  lemma Interleaved(m: nat, b: nat, c: nat, r: nat)
    requires Binary(b) && Binary(c) && m == b + 2 * c + 4 * r
    ensures PixelX(m) == b + 2 * PixelX(r) && PixelY(m) == c + 2 * PixelY(r)
  {
    LowBit(m, b, c, r);
    LowBit(m / 2, c, r % 2, r / 2);
  }

  lemma LowBit(m: nat, b: nat, c: nat, r: nat)
    requires Binary(b) && Binary(c) && m == b + 2 * c + 4 * r
    ensures PixelX(m) == b + 2 * PixelX(r)
  {
    assert m / 4 == r && m % 2 == b;
  }

  lemma Spread(x0: nat, x1: nat, x2: nat, y0: nat, y1: nat, y2: nat)
    requires Binary(x0) && Binary(x1) && Binary(x2) && Binary(y0) && Binary(y1) && Binary(y2)
    ensures Morton(x0 + 2 * x1 + 4 * x2, y0 + 2 * y1 + 4 * y2) == x0 + 2 * y0 + 4 * (x1 + 2 * y1 + 4 * (x2 + 2 * y2))
  {
    assert MORTON_X[x0 + 2 * x1 + 4 * x2] == x0 + 4 * x1 + 16 * x2;
    assert MORTON_Y[y0 + 2 * y1 + 4 * y2] == 2 * y0 + 8 * y1 + 32 * y2;
  }

  lemma Zero()
    ensures PixelX(0) == 0 && PixelY(0) == 0
  {
  }

  lemma SixBits(m: nat, p: nat, q: nat, x0: nat, x1: nat, x2: nat, y0: nat, y1: nat, y2: nat)
    requires Binary(x0) && Binary(x1) && Binary(x2) && Binary(y0) && Binary(y1) && Binary(y2)
    requires q == x2 + 2 * y2 && p == x1 + 2 * y1 + 4 * q && m == x0 + 2 * y0 + 4 * p
    ensures PixelX(m) == x0 + 2 * (x1 + 2 * x2) && PixelY(m) == y0 + 2 * (y1 + 2 * y2)
  {
    Zero();
    Interleaved(q, x2, y2, 0);
    Interleaved(p, x1, y1, q);
    Interleaved(m, x0, y0, p);
  }

  lemma AtBits(m: nat, x: nat, y: nat, x0: nat, x1: nat, x2: nat, y0: nat, y1: nat, y2: nat)
    requires Binary(x0) && Binary(x1) && Binary(x2) && Binary(y0) && Binary(y1) && Binary(y2)
    requires m == x0 + 2 * y0 + 4 * (x1 + 2 * y1 + 4 * (x2 + 2 * y2))
    requires x == x0 + 2 * x1 + 4 * x2 && y == y0 + 2 * y1 + 4 * y2
    ensures x < 8 && y < 8 && Morton(x, y) == m && PixelX(m) == x && PixelY(m) == y
  {
    SixBits(m, x1 + 2 * y1 + 4 * (x2 + 2 * y2), x2 + 2 * y2, x0, x1, x2, y0, y1, y2);
    Spread(x0, x1, x2, y0, y1, y2);
  }

  lemma Digits(x: nat) returns (b0: nat, b1: nat, b2: nat)
    requires x < 8
    ensures Binary(b0) && Binary(b1) && Binary(b2) && x == b0 + 2 * b1 + 4 * b2
  {
    b2 := if x >= 4 then 1 else 0;
    b1 := if x - 4 * b2 >= 2 then 1 else 0;
    b0 := x - 4 * b2 - 2 * b1;
  }

  lemma MortonBack(x: nat, y: nat)
    requires x < 8 && y < 8
    ensures Morton(x, y) < 64 && PixelX(Morton(x, y)) == x && PixelY(Morton(x, y)) == y
  {
    var x0, x1, x2 := Digits(x);
    var y0, y1, y2 := Digits(y);
    var m := x0 + 2 * y0 + 4 * (x1 + 2 * y1 + 4 * (x2 + 2 * y2));
    AtBits(m, x, y, x0, x1, x2, y0, y1, y2);
  }

  lemma MortonForth(m: nat)
    requires m < 64
    ensures PixelX(m) < 8 && PixelY(m) < 8 && Morton(PixelX(m), PixelY(m)) == m
  {
    var q := if m >= 48 then 3 else if m >= 32 then 2 else if m >= 16 then 1 else 0;
    var r := m - 16 * q;
    var p := if r >= 12 then 3 else if r >= 8 then 2 else if r >= 4 then 1 else 0;
    var x2, y2 := TwoBits(q);
    var x1, y1 := TwoBits(p);
    var x0, y0 := TwoBits(r - 4 * p);
    AtBits(m, x0 + 2 * x1 + 4 * x2, y0 + 2 * y1 + 4 * y2, x0, x1, x2, y0, y1, y2);
  }

  lemma TwoBits(v: nat) returns (x: nat, y: nat)
    requires v < 4
    ensures Binary(x) && Binary(y) && v == x + 2 * y
  {
    y := if v >= 2 then 1 else 0;
    x := v - 2 * y;
  }

  lemma PlaceUnique(m: nat, w: nat)
    requires m < 64 && w < 64 && PixelX(m) == PixelX(w) && PixelY(m) == PixelY(w)
    ensures m == w
  {
    MortonForth(m);
    MortonForth(w);
  }

  // Bytes of pixels.

  /** The byte offset of a pixel in the image. */
  function InOffset(bpp: nat, px: nat, py: nat): nat { bpp * (WIDTH * py + px) }

  /** The pixel's bytes at `from` in the image are at `to` in the block. */
  predicate PixelIs(dst: seq<Byte>, to: nat, src: seq<Byte>, from: nat, bpp: nat) {
    && to + bpp <= |dst| && from + bpp <= |src|
    && dst[to..to + bpp] == src[from..from + bpp]
  }

  /** Nothing but the n bytes at `to` has changed. */
  predicate OnlyAt(before: seq<Byte>, after: seq<Byte>, to: nat, n: nat) {
    |before| == |after| && forall k :: 0 <= k < |before| && !(to <= k < to + n) ==> after[k] == before[k]
  }

  /** Pixel m of a tile is written before pixel (x, y). */
  predicate Before(m: nat, x: nat, y: nat) {
    PixelY(m) < y || (PixelY(m) == y && PixelX(m) < x)
  }

  predicate TilePixel(dst: seq<Byte>, at: nat, src: seq<Byte>, bpp: nat, tilex: nat, tiley: nat, m: nat) {
    PixelIs(dst, at + bpp * m, src, InOffset(bpp, tilex + PixelX(m), tiley + PixelY(m)), bpp)
  }

  /** The pixels of a tile that come before (x, y) are in place. */
  predicate TileUpTo(dst: seq<Byte>, at: nat, src: seq<Byte>, bpp: nat, tilex: nat, tiley: nat, x: nat, y: nat) {
    forall m: nat {:trigger TilePixel(dst, at, src, bpp, tilex, tiley, m)} ::
      m < 64 && Before(m, x, y) ==> TilePixel(dst, at, src, bpp, tilex, tiley, m)
  }

  lemma PixelsApart(bpp: nat, m: nat, m': nat)
    ensures m < m' ==> bpp * m + bpp <= bpp * m'
  {
    MulMonotone(bpp, m + 1, m');
    assert bpp * (m + 1) == bpp * m + bpp;
  }

  lemma PixelsDisjoint(at: nat, bpp: nat, m: nat, w: nat)
    requires m != w
    ensures at + bpp * m + bpp <= at + bpp * w || at + bpp * w + bpp <= at + bpp * m
  {
    PixelsApart(bpp, m, w);
    PixelsApart(bpp, w, m);
  }

  lemma KeepPixel(before: seq<Byte>, after: seq<Byte>, to: nat, src: seq<Byte>, from: nat, bpp: nat, w: nat, n: nat)
    requires OnlyAt(before, after, w, n) && (to + bpp <= w || w + n <= to)
    requires PixelIs(before, to, src, from, bpp)
    ensures PixelIs(after, to, src, from, bpp)
  {
    assert after[to..to + bpp] == before[to..to + bpp];
  }

  lemma KeepTilePixel(before: seq<Byte>, after: seq<Byte>, at: nat, src: seq<Byte>, bpp: nat,
                      tilex: nat, tiley: nat, m: nat, w: nat)
    requires OnlyAt(before, after, at + bpp * w, bpp) && m != w
    requires TilePixel(before, at, src, bpp, tilex, tiley, m)
    ensures TilePixel(after, at, src, bpp, tilex, tiley, m)
  {
    var to, from, written := at + bpp * m, InOffset(bpp, tilex + PixelX(m), tiley + PixelY(m)), at + bpp * w;
    PixelsDisjoint(at, bpp, m, w);
    KeepPixel(before, after, to, src, from, bpp, written, bpp);
  }

  lemma PixelStep(before: seq<Byte>, after: seq<Byte>, at: nat, src: seq<Byte>, bpp: nat,
                  tilex: nat, tiley: nat, w: nat)
    requires w < 64 && OnlyAt(before, after, at + bpp * w, bpp)
    requires TileUpTo(before, at, src, bpp, tilex, tiley, PixelX(w), PixelY(w))
    requires TilePixel(after, at, src, bpp, tilex, tiley, w)
    ensures TileUpTo(after, at, src, bpp, tilex, tiley, PixelX(w) + 1, PixelY(w))
  {
    forall m: nat | m < 64 && Before(m, PixelX(w) + 1, PixelY(w))
      ensures TilePixel(after, at, src, bpp, tilex, tiley, m)
    {
      if PixelX(m) == PixelX(w) && PixelY(m) == PixelY(w) {
        PlaceUnique(m, w);
      } else {
        KeepTilePixel(before, after, at, src, bpp, tilex, tiley, m, w);
      }
    }
  }

  lemma RowStep(dst: seq<Byte>, at: nat, src: seq<Byte>, bpp: nat, tilex: nat, tiley: nat, y: nat)
    requires TileUpTo(dst, at, src, bpp, tilex, tiley, 8, y)
    ensures TileUpTo(dst, at, src, bpp, tilex, tiley, 0, y + 1)
  {
    forall m: nat | m < 64 && Before(m, 0, y + 1)
      ensures TilePixel(dst, at, src, bpp, tilex, tiley, m)
    {
      MortonForth(m);
      assert Before(m, 8, y);
    }
  }

  method CopyPixel(dst: array<Byte>, to: nat, src: array<Byte>, from: nat, bpp: nat)
    requires dst != src && to + bpp <= dst.Length && from + bpp <= src.Length
    modifies dst
    ensures PixelIs(dst[..], to, src[..], from, bpp) && OnlyAt(old(dst[..]), dst[..], to, bpp)
  {
    var c := 0;
    while c < bpp
      invariant 0 <= c <= bpp
      invariant forall k :: 0 <= k < dst.Length ==>
                  dst[k] == if to <= k < to + c then src[from + k - to] else old(dst[k])
    {
      dst[to + c] := src[from + c];
      c := c + 1;
    }
    assert dst[to..to + bpp] == src[from..from + bpp];
  }

  /** What changes inside a change changes nothing else. */
  lemma OnlyAtThen(before: seq<Byte>, mid: seq<Byte>, after: seq<Byte>, to: nat, n: nat, at: nat, k: nat)
    requires OnlyAt(before, mid, to, n) && OnlyAt(mid, after, at, k) && to <= at && at + k <= to + n
    ensures OnlyAt(before, after, to, n)
  {
    forall i | 0 <= i < |before| && !(to <= i < to + n)
      ensures after[i] == before[i]
    {
      assert after[i] == mid[i];
    }
  }

  /** All rows of pixels of one tile. The image is wide and high enough for the tile. */
  predicate TileFits(src: seq<Byte>, bpp: nat, tilex: nat, tiley: nat) {
    InOffset(bpp, tilex + 7, tiley + 7) + bpp <= |src|
  }

  lemma PixelFits(src: seq<Byte>, bpp: nat, tilex: nat, tiley: nat, x: nat, y: nat)
    requires TileFits(src, bpp, tilex, tiley) && x < 8 && y < 8
    ensures InOffset(bpp, tilex + x, tiley + y) + bpp <= |src|
  {
    MulMonotone(bpp, WIDTH * (tiley + y) + tilex + x, WIDTH * (tiley + 7) + tilex + 7);
  }

  method ConvertTile(dst: array<Byte>, at: nat, src: array<Byte>, tilex: nat, tiley: nat, bpp: nat)
    requires dst != src && at + bpp * 64 <= dst.Length && TileFits(src[..], bpp, tilex, tiley)
    modifies dst
    ensures TileUpTo(dst[..], at, src[..], bpp, tilex, tiley, 0, 8)
    ensures OnlyAt(old(dst[..]), dst[..], at, bpp * 64)
  {
    ghost var was := dst[..];
    var y := 0;
    while y < 8
      invariant 0 <= y <= 8 && TileUpTo(dst[..], at, src[..], bpp, tilex, tiley, 0, y)
      invariant OnlyAt(was, dst[..], at, bpp * 64)
    {
      var x := 0;
      while x < 8
        invariant 0 <= x <= 8 && TileUpTo(dst[..], at, src[..], bpp, tilex, tiley, x, y)
        invariant OnlyAt(was, dst[..], at, bpp * 64)
      {
        ghost var before := dst[..];
        ConvertPixel(dst, at, src, tilex, tiley, bpp, x, y);
        InsideTile(was, before, dst[..], at, bpp, x, y);
        x := x + 1;
      }
      RowStep(dst[..], at, src[..], bpp, tilex, tiley, y);
      y := y + 1;
    }
  }

  /** The body of the loops over a tile's pixels. */
  method ConvertPixel(dst: array<Byte>, at: nat, src: array<Byte>, tilex: nat, tiley: nat, bpp: nat, x: nat, y: nat)
    requires dst != src && at + bpp * 64 <= dst.Length && TileFits(src[..], bpp, tilex, tiley) && x < 8 && y < 8
    requires TileUpTo(dst[..], at, src[..], bpp, tilex, tiley, x, y)
    modifies dst
    ensures TileUpTo(dst[..], at, src[..], bpp, tilex, tiley, x + 1, y)
    ensures OnlyAt(old(dst[..]), dst[..], at + bpp * Morton(x, y), bpp)
  {
    ghost var before := dst[..];
    CopyToPlace(dst, at, src, tilex, tiley, bpp, x, y);
    MortonBack(x, y);
    PixelStep(before, dst[..], at, src[..], bpp, tilex, tiley, Morton(x, y));
  }

  lemma InsideTile(was: seq<Byte>, before: seq<Byte>, after: seq<Byte>, at: nat, bpp: nat, x: nat, y: nat)
    requires x < 8 && y < 8 && OnlyAt(was, before, at, bpp * 64)
    requires OnlyAt(before, after, at + bpp * Morton(x, y), bpp)
    ensures OnlyAt(was, after, at, bpp * 64)
  {
    PlaceFits(bpp, x, y);
    OnlyAtThen(was, before, after, at, bpp * 64, at + bpp * Morton(x, y), bpp);
  }

  method CopyToPlace(dst: array<Byte>, at: nat, src: array<Byte>, tilex: nat, tiley: nat, bpp: nat, x: nat, y: nat)
    requires dst != src && at + bpp * 64 <= dst.Length && TileFits(src[..], bpp, tilex, tiley) && x < 8 && y < 8
    modifies dst
    ensures OnlyAt(old(dst[..]), dst[..], at + bpp * Morton(x, y), bpp)
    ensures TilePixel(dst[..], at, src[..], bpp, tilex, tiley, Morton(x, y))
  {
    PlaceFits(bpp, x, y);
    PixelFits(src[..], bpp, tilex, tiley, x, y);
    var inOffset := bpp * (WIDTH * (tiley + y) + (tilex + x));
    var outOffset := bpp * (MORTON_X[x] + MORTON_Y[y]);
    CopyPixel(dst, at + outOffset, src, inOffset, bpp);
  }

  lemma PlaceFits(bpp: nat, x: nat, y: nat)
    requires x < 8 && y < 8
    ensures Morton(x, y) < 64 && PixelX(Morton(x, y)) == x && PixelY(Morton(x, y)) == y
    ensures bpp * Morton(x, y) + bpp <= bpp * 64
  {
    MortonBack(x, y);
    PixelsApart(bpp, Morton(x, y), 64);
  }

  // Tiles of an image.

  function TileAt(base: nat, bpp: nat, n: nat): nat { base + bpp * 64 * n }

  /** Tile n: the first 30 of each row hold pixels, the last two keep what was there. */
  predicate TileIs(was: seq<Byte>, now: seq<Byte>, base: nat, src: seq<Byte>, bpp: nat, n: nat) {
    var at := TileAt(base, bpp, n);
    && at + bpp * 64 <= |now| == |was|
    && if n % TILES_PER_ROW < 30 then TileUpTo(now, at, src, bpp, n % TILES_PER_ROW * 8, n / TILES_PER_ROW * 8, 0, 8)
       else now[at..at + bpp * 64] == was[at..at + bpp * 64]
  }

  /** The first n tiles are done, and nothing else has changed. */
  ghost predicate TilesUpTo(was: seq<Byte>, now: seq<Byte>, base: nat, src: seq<Byte>, bpp: nat, n: nat) {
    && OnlyAt(was, now, base, bpp * 64 * n)
    && forall k :: 0 <= k < n ==> TileIs(was, now, base, src, bpp, k)
  }

  lemma TilesApart(base: nat, bpp: nat, n: nat, k: nat)
    ensures n < k ==> TileAt(base, bpp, n) + bpp * 64 <= TileAt(base, bpp, k)
    ensures TileAt(base, bpp, n + 1) == TileAt(base, bpp, n) + bpp * 64
  {
    assert bpp * 64 * (n + 1) == bpp * 64 * n + bpp * 64;
    MulMonotone(bpp * 64, n + 1, k);
  }

  lemma KeepPixels(before: seq<Byte>, after: seq<Byte>, at: nat, src: seq<Byte>, bpp: nat,
                   tilex: nat, tiley: nat, w: nat, n: nat)
    requires TileUpTo(before, at, src, bpp, tilex, tiley, 0, 8)
    requires OnlyAt(before, after, w, n) && at + bpp * 64 <= w
    ensures TileUpTo(after, at, src, bpp, tilex, tiley, 0, 8)
  {
    forall m: nat | m < 64 && Before(m, 0, 8)
      ensures TilePixel(after, at, src, bpp, tilex, tiley, m)
    {
      assert TilePixel(before, at, src, bpp, tilex, tiley, m);
      PixelsApart(bpp, m, 64);
      KeepPixel(before, after, at + bpp * m, src, InOffset(bpp, tilex + PixelX(m), tiley + PixelY(m)), bpp, w, n);
    }
  }

  lemma KeepTile(was: seq<Byte>, before: seq<Byte>, after: seq<Byte>, base: nat, src: seq<Byte>, bpp: nat,
                 k: nat, n: nat)
    requires TileIs(was, before, base, src, bpp, k) && OnlyAt(before, after, TileAt(base, bpp, n), bpp * 64) && k < n
    ensures TileIs(was, after, base, src, bpp, k)
  {
    var at := TileAt(base, bpp, k);
    TilesApart(base, bpp, k, n);
    if k % TILES_PER_ROW < 30 {
      KeepPixels(before, after, at, src, bpp, k % TILES_PER_ROW * 8, k / TILES_PER_ROW * 8,
                 TileAt(base, bpp, n), bpp * 64);
    } else {
      assert after[at..at + bpp * 64] == before[at..at + bpp * 64];
    }
  }

  lemma TileStep(was: seq<Byte>, before: seq<Byte>, after: seq<Byte>, base: nat, src: seq<Byte>, bpp: nat, n: nat)
    requires TilesUpTo(was, before, base, src, bpp, n) && OnlyAt(before, after, TileAt(base, bpp, n), bpp * 64)
    requires TileIs(was, after, base, src, bpp, n)
    ensures TilesUpTo(was, after, base, src, bpp, n + 1)
  {
    TilesApart(base, bpp, n, n);
    forall k | 0 <= k < n + 1
      ensures TileIs(was, after, base, src, bpp, k)
    {
      if k < n {
        KeepTile(was, before, after, base, src, bpp, k, n);
      }
    }
  }

  lemma PaddingIs(was: seq<Byte>, now: seq<Byte>, base: nat, src: seq<Byte>, bpp: nat, n: nat)
    requires TilesUpTo(was, now, base, src, bpp, n) && n % TILES_PER_ROW >= 30
    requires TileAt(base, bpp, n) + bpp * 64 <= |was|
    ensures TileIs(was, now, base, src, bpp, n)
  {
    var at := TileAt(base, bpp, n);
    assert now[at..at + bpp * 64] == was[at..at + bpp * 64];
  }

  /** aptConvertScreenForCapture, for a height of whole tiles. */
  method Convert(dst: array<Byte>, base: nat, src: array<Byte>, height: nat, bpp: nat)
    requires dst != src && height % 8 == 0
    requires TileAt(base, bpp, TILES_PER_ROW * (height / 8)) <= dst.Length && bpp * (WIDTH * height) <= src.Length
    modifies dst
    ensures TilesUpTo(old(dst[..]), dst[..], base, src[..], bpp, TILES_PER_ROW * (height / 8))
  {
    ghost var was := dst[..];
    ghost var ty := 0;
    var out, tiley := base, 0;
    while tiley < height
      invariant tiley == 8 * ty && ty <= height / 8 && out == TileAt(base, bpp, TILES_PER_ROW * ty)
      invariant TilesUpTo(was, dst[..], base, src[..], bpp, TILES_PER_ROW * ty)
    {
      ghost var tx := 0;
      var tilex := 0;
      while tilex < WIDTH
        invariant tilex == 8 * tx && tx <= 30 && out == TileAt(base, bpp, TILES_PER_ROW * ty + tx)
        invariant TilesUpTo(was, dst[..], base, src[..], bpp, TILES_PER_ROW * ty + tx)
      {
        out := ConvertTileNumber(dst, base, out, src, height, bpp, tilex, tiley, was, tx, ty);
        tilex, tx := tilex + 8, tx + 1;
      }
      while tilex < 256
        invariant tilex == 8 * tx && tx <= 32 && out == TileAt(base, bpp, TILES_PER_ROW * ty + tx)
        invariant TilesUpTo(was, dst[..], base, src[..], bpp, TILES_PER_ROW * ty + tx)
        modifies {}
      {
        SkipTile(dst[..], base, src[..], height, bpp, was, tx, ty);
        out := out + bpp * 64;
        tilex, tx := tilex + 8, tx + 1;
      }
      tiley, ty := tiley + 8, ty + 1;
    }
  }

  lemma SkipTile(now: seq<Byte>, base: nat, src: seq<Byte>, height: nat, bpp: nat, was: seq<Byte>, tx: nat, ty: nat)
    requires 30 <= tx < TILES_PER_ROW && ty < height / 8
    requires TileAt(base, bpp, TILES_PER_ROW * (height / 8)) <= |was|
    requires TilesUpTo(was, now, base, src, bpp, TILES_PER_ROW * ty + tx)
    ensures TilesUpTo(was, now, base, src, bpp, TILES_PER_ROW * ty + tx + 1)
    ensures TileAt(base, bpp, TILES_PER_ROW * ty + tx) + bpp * 64 == TileAt(base, bpp, TILES_PER_ROW * ty + tx + 1)
  {
    var n := TILES_PER_ROW * ty + tx;
    DivModUnique(n, TILES_PER_ROW, ty, tx);
    TilesApart(base, bpp, n, TILES_PER_ROW * (height / 8));
    PaddingIs(was, now, base, src, bpp, n);
    TileStep(was, now, now, base, src, bpp, n);
  }

  method ConvertTileNumber(dst: array<Byte>, base: nat, out: nat, src: array<Byte>, height: nat, bpp: nat,
                           tilex: nat, tiley: nat, ghost was: seq<Byte>, ghost tx: nat, ghost ty: nat)
    returns (next: nat)
    requires dst != src && tilex == 8 * tx && tiley == 8 * ty && tx < 30 && ty < height / 8
    requires TileAt(base, bpp, TILES_PER_ROW * (height / 8)) <= dst.Length && bpp * (WIDTH * height) <= src.Length
    requires out == TileAt(base, bpp, TILES_PER_ROW * ty + tx)
    requires TilesUpTo(was, dst[..], base, src[..], bpp, TILES_PER_ROW * ty + tx)
    modifies dst
    ensures next == TileAt(base, bpp, TILES_PER_ROW * ty + tx + 1)
    ensures TilesUpTo(was, dst[..], base, src[..], bpp, TILES_PER_ROW * ty + tx + 1)
  {
    ghost var before, n := dst[..], TILES_PER_ROW * ty + tx;
    DivModUnique(n, TILES_PER_ROW, ty, tx);
    TilesApart(base, bpp, n, TILES_PER_ROW * (height / 8));
    LastPixelFits(height, bpp, tx, ty);
    ConvertTile(dst, out, src, tilex, tiley, bpp);
    TileStep(was, before, dst[..], base, src[..], bpp, n);
    next := out + bpp * 64;
  }

  lemma LastPixelFits(height: nat, bpp: nat, tx: nat, ty: nat)
    requires tx < 30 && ty < height / 8
    ensures InOffset(bpp, 8 * tx + 7, 8 * ty + 7) + bpp <= bpp * (WIDTH * height)
  {
    var last := WIDTH * (8 * ty + 7) + 8 * tx + 7;
    assert last + 1 <= WIDTH * height;
    MulMonotone(bpp, last + 1, WIDTH * height);
    assert bpp * (last + 1) == bpp * last + bpp;
  }
}
