/** What a tiled capture holds, and how the images of the screens share one memory block. */
module CaptureLayout {
  import opened Arithmetic
  import opened CaptureTiling

  /** Every tile of the image is in place; paddings are free. */
  ghost predicate ImageIs(now: seq<Byte>, base: nat, src: seq<Byte>, bpp: nat, height: nat) {
    forall k: nat {:trigger TileAt(base, bpp, k)} :: k < TILES_PER_ROW * (height / 8) && k % TILES_PER_ROW < 30 ==>
      TileUpTo(now, TileAt(base, bpp, k), src, bpp, k % TILES_PER_ROW * 8, k / TILES_PER_ROW * 8, 0, 8)
  }

  /** The number of bytes an image takes, 256 pixels a row. */
  function ImageSize(bpp: nat, height: nat): nat { TileAt(0, bpp, TILES_PER_ROW * (height / 8)) }

  lemma ConvertedIsImage(was: seq<Byte>, now: seq<Byte>, base: nat, src: seq<Byte>, bpp: nat, height: nat)
    requires TilesUpTo(was, now, base, src, bpp, TILES_PER_ROW * (height / 8))
    ensures ImageIs(now, base, src, bpp, height)
  {
    forall k: nat | k < TILES_PER_ROW * (height / 8) && k % TILES_PER_ROW < 30
      ensures TileUpTo(now, TileAt(base, bpp, k), src, bpp, k % TILES_PER_ROW * 8, k / TILES_PER_ROW * 8, 0, 8)
    {
      assert TileIs(was, now, base, src, bpp, k);
    }
  }

  // Single bytes.

  /** Where byte c of pixel (px, py) goes. */
  function OutOffset(bpp: nat, px: nat, py: nat, c: nat): nat {
    TileAt(0, bpp, TILES_PER_ROW * (py / 8) + px / 8) + bpp * Morton(px % 8, py % 8) + c
  }

  lemma OutOffsetInTile(bpp: nat, px: nat, py: nat, c: nat)
    requires c < bpp
    ensures var n := TILES_PER_ROW * (py / 8) + px / 8;
            TileAt(0, bpp, n) <= OutOffset(bpp, px, py, c) < TileAt(0, bpp, n) + bpp * 64
  {
    MortonBack(px % 8, py % 8);
    PixelsApart(bpp, Morton(px % 8, py % 8), 64);
  }

  /** Every byte of the padded image has a place of its own inside the image's bytes. */
  lemma PlacesInBounds(bpp: nat, height: nat, px: nat, py: nat, c: nat)
    requires px < 256 && py < height && height % 8 == 0 && c < bpp
    ensures OutOffset(bpp, px, py, c) < ImageSize(bpp, height) == 256 * height * bpp
  {
    var n := TILES_PER_ROW * (py / 8) + px / 8;
    OutOffsetInTile(bpp, px, py, c);
    TilesApart(0, bpp, n, TILES_PER_ROW * (height / 8));
    assert n < TILES_PER_ROW * (height / 8);
    SizeIs(bpp, height);
  }

  lemma SizeIs(bpp: nat, height: nat)
    requires height % 8 == 0
    ensures ImageSize(bpp, height) == 256 * height * bpp
  {
    var h := height / 8;
    assert height == 8 * h;
    assert bpp * 64 * (TILES_PER_ROW * h) == 256 * (8 * h) * bpp;
  }

  lemma PlacesDistinct(bpp: nat, px: nat, py: nat, c: nat, px': nat, py': nat, c': nat)
    requires px < 256 && px' < 256 && c < bpp && c' < bpp
    requires OutOffset(bpp, px, py, c) == OutOffset(bpp, px', py', c')
    ensures px == px' && py == py' && c == c'
  {
    var n, n' := TILES_PER_ROW * (py / 8) + px / 8, TILES_PER_ROW * (py' / 8) + px' / 8;
    OutOffsetInTile(bpp, px, py, c);
    OutOffsetInTile(bpp, px', py', c');
    TilesApart(0, bpp, n, n');
    TilesApart(0, bpp, n', n);
    var m, m' := Morton(px % 8, py % 8), Morton(px' % 8, py' % 8);
    PixelsApart(bpp, m, m');
    PixelsApart(bpp, m', m);
    MortonBack(px % 8, py % 8);
    MortonBack(px' % 8, py' % 8);
    SameParts(px, py, px', py');
  }

  lemma SameParts(px: nat, py: nat, px': nat, py': nat)
    requires px < 256 && px' < 256 && px % 8 == px' % 8 && py % 8 == py' % 8
    requires TILES_PER_ROW * (py / 8) + px / 8 == TILES_PER_ROW * (py' / 8) + px' / 8
    ensures px == px' && py == py'
  {
    DivModUnique(TILES_PER_ROW * (py / 8) + px / 8, TILES_PER_ROW, py / 8, px / 8);
    DivModUnique(TILES_PER_ROW * (py' / 8) + px' / 8, TILES_PER_ROW, py' / 8, px' / 8);
  }

  /** Reading each pixel at its place gives the image back. */
  lemma Detiled(now: seq<Byte>, base: nat, src: seq<Byte>, bpp: nat, height: nat, px: nat, py: nat, c: nat)
    requires ImageIs(now, base, src, bpp, height)
    requires px < WIDTH && py < height && height % 8 == 0 && c < bpp
    ensures base + OutOffset(bpp, px, py, c) < |now| && InOffset(bpp, px, py) + c < |src|
    ensures now[base + OutOffset(bpp, px, py, c)] == src[InOffset(bpp, px, py) + c]
  {
    var n, m := TILES_PER_ROW * (py / 8) + px / 8, Morton(px % 8, py % 8);
    PixelOf(now, base, src, bpp, height, px, py, n, m);
    PixelByte(now, TileAt(base, bpp, n) + bpp * m, src, InOffset(bpp, px, py), bpp, c);
  }

  lemma PixelOf(now: seq<Byte>, base: nat, src: seq<Byte>, bpp: nat, height: nat, px: nat, py: nat, n: nat, m: nat)
    requires ImageIs(now, base, src, bpp, height)
    requires px < WIDTH && py < height && height % 8 == 0
    requires n == TILES_PER_ROW * (py / 8) + px / 8 && m == Morton(px % 8, py % 8)
    ensures PixelIs(now, TileAt(base, bpp, n) + bpp * m, src, InOffset(bpp, px, py), bpp)
  {
    DivModUnique(n, TILES_PER_ROW, py / 8, px / 8);
    MortonBack(px % 8, py % 8);
    Parts(px);
    Parts(py);
    PixelPlaced(now, base, src, bpp, height, px / 8, py / 8, n, m);
  }

  lemma Parts(p: nat)
    ensures p / 8 * 8 + p % 8 == p
  {
  }

  lemma PixelPlaced(now: seq<Byte>, base: nat, src: seq<Byte>, bpp: nat, height: nat, tx: nat, ty: nat, n: nat, m: nat)
    requires ImageIs(now, base, src, bpp, height) && tx < 30 && ty < height / 8 && m < 64 && PixelY(m) < 8
    requires n == TILES_PER_ROW * ty + tx && n % TILES_PER_ROW == tx && n / TILES_PER_ROW == ty
    ensures PixelIs(now, TileAt(base, bpp, n) + bpp * m, src,
                    InOffset(bpp, tx * 8 + PixelX(m), ty * 8 + PixelY(m)), bpp)
  {
    var at := TileAt(base, bpp, n);
    assert TileUpTo(now, at, src, bpp, tx * 8, ty * 8, 0, 8);
    assert Before(m, 0, 8);
    assert TilePixel(now, at, src, bpp, tx * 8, ty * 8, m);
  }

  lemma PixelByte(now: seq<Byte>, to: nat, src: seq<Byte>, from: nat, bpp: nat, c: nat)
    requires PixelIs(now, to, src, from, bpp) && c < bpp
    ensures now[to + c] == src[from + c]
  {
    assert now[to..to + bpp][c] == now[to + c];
    assert src[from..from + bpp][c] == src[from + c];
  }

  /** The same by the bits of the pixel's place in its tile, in the source's numbers: 32 tiles of
      64 pixels a row in the block, 240 pixels a row in the image. */
  lemma DetiledByBits(now: seq<Byte>, base: nat, src: seq<Byte>, bpp: nat, height: nat, tx: nat, ty: nat, c: nat,
                      x0: nat, x1: nat, x2: nat, y0: nat, y1: nat, y2: nat, place: nat, pixel: nat)
    requires ImageIs(now, base, src, bpp, height) && height % 8 == 0
    requires tx < 30 && ty < height / 8 && c < bpp
    requires Binary(x0) && Binary(x1) && Binary(x2) && Binary(y0) && Binary(y1) && Binary(y2)
    requires place == bpp * 64 * (32 * ty + tx) + bpp * (x0 + 2 * y0 + 4 * x1 + 8 * y1 + 16 * x2 + 32 * y2) + c
    requires pixel == bpp * (240 * (8 * ty + y0 + 2 * y1 + 4 * y2) + (8 * tx + x0 + 2 * x1 + 4 * x2)) + c
    ensures base + place < |now| && pixel < |src| && now[base + place] == src[pixel]
  {
    var x, y := x0 + 2 * x1 + 4 * x2, y0 + 2 * y1 + 4 * y2;
    Spread(x0, x1, x2, y0, y1, y2);
    PartsOf(tx, x);
    PartsOf(ty, y);
    Detiled(now, base, src, bpp, height, 8 * tx + x, 8 * ty + y, c);
  }

  lemma PartsOf(t: nat, p: nat)
    requires p < 8
    ensures (8 * t + p) / 8 == t && (8 * t + p) % 8 == p
  {
  }

  // The memory block.

  function BytesPerPixel(format: nat): (bpp: nat)
    ensures 2 <= bpp <= 4
  {
    match format
    case 0 => 4
    case 2 => 2
    case 3 => 2
    case 4 => 2
    case _ => 3
  }

  datatype Screen = Screen(leftOffset: nat, rightOffset: nat, format: nat)
  datatype CaptureInfo = CaptureInfo(size: nat, is3D: bool, top: Screen, bottom: Screen)

  /** aptInitCaptureInfo, from the format words of the top and the bottom screen. */
  function InitCaptureInfo(topWord: nat, bottomWord: nat): CaptureInfo {
    var is3D := topWord / 0x20 % 2 == 1;
    var top, bottom := topWord % 8, bottomWord % 8;
    var mainSize, subSize := BytesPerPixel(top), BytesPerPixel(bottom);
    var left := subSize * 0x14000;
    var right := if is3D then left + mainSize * 0x19000 else left;
    CaptureInfo(mainSize * 0x7000 + mainSize * 0x19000 + right, is3D, Screen(left, right, top), Screen(0, 0, bottom))
  }

  /** The numbers of the block: 4, 3 or 2 bytes a pixel by the low three bits of each format word,
      the right eye by bit 5 of the top one's. */
  lemma CaptureNumbers(topHigh: nat, eye: nat, topMiddle: nat, top: nat, bottomHigh: nat, bottom: nat)
    requires eye < 2 && topMiddle < 4 && top < 8 && bottom < 8
    ensures var info := InitCaptureInfo(64 * topHigh + 32 * eye + 8 * topMiddle + top, 8 * bottomHigh + bottom);
            var main, sub := [4, 3, 2, 2, 2, 3, 3, 3][top], [4, 3, 2, 2, 2, 3, 3, 3][bottom];
            && (info.is3D <==> eye == 1)
            && info.bottom == Screen(0, 0, bottom)
            && info.top == Screen(sub * 0x14000, sub * 0x14000 + (if eye == 1 then main * 0x19000 else 0), top)
            && info.size == sub * 0x14000 + (if eye == 1 then main * 0x39000 else main * 0x20000)
    ensures BytesPerPixel(top) == [4, 3, 2, 2, 2, 3, 3, 3][top]
  {
    var topWord := 64 * topHigh + 32 * eye + 8 * topMiddle + top;
    assert topWord % 8 == top;
    assert topWord / 0x20 == 2 * topHigh + eye;
    assert (8 * bottomHigh + bottom) % 8 == bottom;
  }

  const BOTTOM_HEIGHT := 320
  const TOP_HEIGHT := 400

  /** The images of the two screens, and of the right eye when there is one, lie one after the
      other in the block and do not pass its end. */
  lemma ImagesFit(topWord: nat, bottomWord: nat)
    ensures var info := InitCaptureInfo(topWord, bottomWord);
            var main, sub := BytesPerPixel(info.top.format), BytesPerPixel(info.bottom.format);
            && info.bottom.leftOffset + ImageSize(sub, BOTTOM_HEIGHT) <= info.top.leftOffset
            && info.top.leftOffset + ImageSize(main, TOP_HEIGHT) <= info.size
            && (info.is3D ==>
                  && info.top.leftOffset + ImageSize(main, TOP_HEIGHT) <= info.top.rightOffset
                  && info.top.rightOffset + ImageSize(main, TOP_HEIGHT) <= info.size)
  {
    var info := InitCaptureInfo(topWord, bottomWord);
    SizeIs(BytesPerPixel(info.bottom.format), BOTTOM_HEIGHT);
    SizeIs(BytesPerPixel(info.top.format), TOP_HEIGHT);
  }

  lemma KeepImage(before: seq<Byte>, after: seq<Byte>, base: nat, src: seq<Byte>, bpp: nat, height: nat, w: nat, n: nat)
    requires ImageIs(before, base, src, bpp, height) && OnlyAt(before, after, w, n)
    requires base + ImageSize(bpp, height) <= w
    ensures ImageIs(after, base, src, bpp, height)
  {
    forall k: nat | k < TILES_PER_ROW * (height / 8) && k % TILES_PER_ROW < 30
      ensures TileUpTo(after, TileAt(base, bpp, k), src, bpp, k % TILES_PER_ROW * 8, k / TILES_PER_ROW * 8, 0, 8)
    {
      TilesApart(base, bpp, k, TILES_PER_ROW * (height / 8));
      KeepPixels(before, after, TileAt(base, bpp, k), src, bpp, k % TILES_PER_ROW * 8, k / TILES_PER_ROW * 8, w, n);
    }
  }

  /** A framebuffer large enough for an image of this height. */
  predicate Holds(src: array<Byte>, bpp: nat, height: nat) { bpp * (WIDTH * height) <= src.Length }

  /** The captures of aptScreenTransfer. Each image is whole at the end. */
  method Capture(block: array<Byte>, info: CaptureInfo, bottom: array<Byte>, left: array<Byte>, right: array<Byte>,
                 ghost topWord: nat, ghost bottomWord: nat)
    requires info == InitCaptureInfo(topWord, bottomWord) && block.Length >= info.size
    requires block != bottom && block != left && block != right
    requires Holds(bottom, BytesPerPixel(info.bottom.format), 320)
    requires Holds(left, BytesPerPixel(info.top.format), 400)
    requires info.is3D ==> Holds(right, BytesPerPixel(info.top.format), 400)
    modifies block
    ensures ImageIs(block[..], info.bottom.leftOffset, bottom[..], BytesPerPixel(info.bottom.format), 320)
    ensures ImageIs(block[..], info.top.leftOffset, left[..], BytesPerPixel(info.top.format), 400)
    ensures info.is3D ==>
              ImageIs(block[..], info.top.rightOffset, right[..], BytesPerPixel(info.top.format), 400)
  {
    ImagesFit(topWord, bottomWord);
    var main, sub := BytesPerPixel(info.top.format), BytesPerPixel(info.bottom.format);
    ConvertImage(block, info.bottom.leftOffset, bottom, BOTTOM_HEIGHT, sub);
    ghost var before := block[..];
    ConvertImage(block, info.top.leftOffset, left, TOP_HEIGHT, main);
    KeepImage(before, block[..], info.bottom.leftOffset, bottom[..], sub, BOTTOM_HEIGHT,
              info.top.leftOffset, ImageSize(main, TOP_HEIGHT));
    if info.is3D {
      before := block[..];
      ConvertImage(block, info.top.rightOffset, right, TOP_HEIGHT, main);
      KeepImage(before, block[..], info.bottom.leftOffset, bottom[..], sub, BOTTOM_HEIGHT,
                info.top.rightOffset, ImageSize(main, TOP_HEIGHT));
      KeepImage(before, block[..], info.top.leftOffset, left[..], main, TOP_HEIGHT,
                info.top.rightOffset, ImageSize(main, TOP_HEIGHT));
    }
  }

  method ConvertImage(block: array<Byte>, base: nat, src: array<Byte>, height: nat, bpp: nat)
    requires block != src && height % 8 == 0 && Holds(src, bpp, height)
    requires base + ImageSize(bpp, height) <= block.Length
    modifies block
    ensures ImageIs(block[..], base, src[..], bpp, height)
    ensures OnlyAt(old(block[..]), block[..], base, ImageSize(bpp, height))
  {
    ghost var was := block[..];
    Convert(block, base, src, height, bpp);
    ConvertedIsImage(was, block[..], base, src[..], bpp, height);
  }
}
