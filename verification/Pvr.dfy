/** Disc art: the texture decoder of the viewer and the 256x256 encoder of the disc builder. */
module Pvr {
  import opened Options
  import opened Words
  import opened Bits
  import opened Morton
  import Scan

  datatype Rgb = Rgb(r: byte, g: byte, b: byte)

  /** w x h pixels, as rows from the top. */
  datatype Image = Image(w: u16, h: u16, rows: seq<seq<Rgb>>)

  ghost predicate Framed(image: Image) {
    |image.rows| == image.h && forall y | 0 <= y < image.h :: |image.rows[y]| == image.w
  }

  // ---- pvrview.decode ----

  const SIGNATURE: seq<byte> := [0x50, 0x56, 0x52, 0x54]
  const TWIDDLED: byte := 0x01
  const RASTER: byte := 0x09
  const RGB565: byte := 1

  /** What the header says, and everything after it. */
  datatype Texture = Texture(format: byte, layout: byte, w: u16, h: u16, data: seq<byte>)

  /** The first header found; none without a signature or when the file ends inside it. */
  function Header(file: seq<byte>): Option<Texture> {
    var o := Scan.Find(file, SIGNATURE, 0);
    if o == -1 || o + 16 > |file| then None
    else Some(Texture(file[o + 8], file[o + 9], Le16(file, o + 12), Le16(file, o + 14), file[o + 16..]))
  }

  /** "PVRT" at place i. */
  predicate SignatureAt(file: seq<byte>, i: int) {
    0 <= i <= |file| - 4 && file[i..i + 4] == [0x50, 0x56, 0x52, 0x54]
  }

  /** A file that is anything without the signature, then "PVRT", a length, format, layout, two bytes, width,
      height and the rest, is read as just that. */
  lemma HeaderReads(file: seq<byte>, pre: seq<byte>, size: seq<byte>, format: byte, layout: byte, gap: seq<byte>,
                    w: u16, h: u16, data: seq<byte>)
    requires |size| == 4 && |gap| == 2
    requires file == pre + [0x50, 0x56, 0x52, 0x54] + size + [format, layout] + gap + Pack16(w) + Pack16(h) + data
    requires forall i | 0 <= i < |pre| :: !SignatureAt(file, i)
    ensures Header(file) == Some(Texture(format, layout, w, h, data))
  {
    var o := |pre|;
    assert file[o..o + 4] == [0x50, 0x56, 0x52, 0x54];
    assert Scan.Occurs(file, SIGNATURE, o);
    forall i | 0 <= i < o ensures !Scan.Occurs(file, SIGNATURE, i) { assert !SignatureAt(file, i); }
    assert Scan.Find(file, SIGNATURE, 0) == o;
    assert file[o + 8] == format && file[o + 9] == layout;
    assert file[o + 12..o + 14] == Pack16(w) && file[o + 14..o + 16] == Pack16(h) && file[o + 16..] == data;
    Unpack16(file, o + 12, w);
    Unpack16(file, o + 14, h);
  }

  /** Without a signature, or with less than a header after the first, the file is not read at all. */
  lemma HeaderMissing(file: seq<byte>, o: nat)
    requires forall i | 0 <= i < o :: !SignatureAt(file, i)
    requires o + 16 > |file|
    ensures Header(file) == None
  {
    var f := Scan.Find(file, SIGNATURE, 0);
    assert f != -1 ==> SignatureAt(file, f);
  }

  /** px_to_rgb: ARGB1555, RGB565, ARGB4444, the top bits of each channel kept in place. */
  function Colour(v: u16, format: byte): Rgb
    requires format <= 2
  {
    match format
    case 0 => Rgb(v / 0x400 % 32 * 8, v / 0x20 % 32 * 8, v % 32 * 8)
    case 1 => Rgb(v / 0x800 % 32 * 8, v / 0x20 % 64 * 4, v % 32 * 8)
    case _ => Rgb(v / 0x100 % 16 * 16, v / 0x10 % 16 * 16, v % 16 * 16)
  }

  lemma Powers()
    ensures Pow2(3) == 8 && Pow2(4) == 16 && Pow2(5) == 32 && Pow2(6) == 64 && Pow2(8) == 256 && Pow2(10) == 1024
    ensures Pow2(2) == 4 && Pow2(11) == 2048
  {}

  lemma Channel(v: u16, k: nat, w: nat, up: nat)
    ensures Shl(And(Shr(v, k), Pow2(w) - 1), up) == v / Pow2(k) % Pow2(w) * Pow2(up)
  {
    Field(v, k, w);
    ShlIsMul(And(Shr(v, k), Pow2(w) - 1), up);
  }

  /** In shifts and masks: five bits a channel, then five, six and five, then four. */
  lemma ColourIsShifts(v: u16)
    ensures var p := Colour(v, 0);
            && p.r == Shl(And(Shr(v, 10), 31), 3) && p.g == Shl(And(Shr(v, 5), 31), 3) && p.b == Shl(And(v, 31), 3)
    ensures var p := Colour(v, 1);
            && p.r == Shl(And(Shr(v, 11), 31), 3) && p.g == Shl(And(Shr(v, 5), 63), 2) && p.b == Shl(And(v, 31), 3)
    ensures var p := Colour(v, 2);
            && p.r == Shl(And(Shr(v, 8), 15), 4) && p.g == Shl(And(Shr(v, 4), 15), 4) && p.b == Shl(And(v, 15), 4)
  {
    Powers();
    Channel(v, 10, 5, 3);
    Channel(v, 5, 5, 3);
    Channel(v, 0, 5, 3);
    Channel(v, 11, 5, 3);
    Channel(v, 5, 6, 2);
    Channel(v, 8, 4, 4);
    Channel(v, 4, 4, 4);
    Channel(v, 0, 4, 4);
    assert Shr(v, 0) == v && Pow2(0) == 1;
  }

  /** The subscript the decoder reads pixel (x, y) from. */
  function Position(t: Texture, x: nat, y: nat): nat {
    if t.layout == RASTER then y * t.w + x else Index(x, y, 10)
  }

  ghost predicate Within(t: Texture, x: nat, y: nat) {
    Position(t, x, y) < t.w * t.h
  }

  /** No branch of the decoder raises. An unknown format only raises when there is a pixel to convert. */
  ghost predicate Legible(t: Texture) {
    && 2 * (t.w * t.h) <= |t.data|
    && (t.layout == RASTER || (t.layout == TWIDDLED && t.w == t.h))
    && (t.w == 0 || t.h == 0 || t.format <= 2)
    && forall x: nat, y: nat | x < t.w && y < t.h :: Within(t, x, y)
  }

  lemma Readable(t: Texture, x: nat, y: nat)
    requires Legible(t) && x < t.w && y < t.h
    ensures 2 * Position(t, x, y) + 2 <= |t.data| && t.format <= 2
  {
    assert Within(t, x, y);
  }

  /** px_to_rgb(get(x, y), fmt), and the word it starts from. */
  ghost function Word(t: Texture, x: nat, y: nat): u16
    requires Legible(t) && x < t.w && y < t.h
  {
    Readable(t, x, y);
    Le16(t.data, 2 * Position(t, x, y))
  }

  ghost function Pixel(t: Texture, x: nat, y: nat): Rgb
    requires Legible(t) && x < t.w && y < t.h
  {
    Readable(t, x, y);
    Colour(Word(t, x, y), t.format)
  }

  ghost function Line(t: Texture, y: nat): seq<Rgb>
    requires Legible(t) && y < t.h
  {
    seq(t.w, x requires 0 <= x < t.w => Pixel(t, x, y))
  }

  ghost function Decoded(t: Texture): (image: Image)
    requires Legible(t)
    ensures Framed(image)
  {
    Image(t.w, t.h, seq(t.h, y requires 0 <= y < t.h => Line(t, y)))
  }

  /** None wherever the decoder raises. */
  ghost function Decode(file: seq<byte>): Option<Image> {
    match Header(file)
    case None => None
    case Some(t) => if Legible(t) then Some(Decoded(t)) else None
  }

  // ---- which square sizes the viewer can untwiddle ----

  predicate PowerOfTwo(n: nat) {
    n == 1 || (n > 0 && n % 2 == 0 && PowerOfTwo(n / 2))
  }

  lemma {:induction false} Root(n: nat) returns (k: nat)
    requires PowerOfTwo(n)
    ensures n == Pow2(k) && n * n == Pow4(k)
  {
    if n == 1 {
      k := 0;
    } else {
      var j := Root(n / 2);
      k := j + 1;
      var m := n / 2;
      assert n == 2 * m && n * n == 4 * (m * m);
    }
  }

  lemma {:induction false} IndexBelow(x: nat, y: nat, k: nat)
    ensures Index(x, y, k) < Pow4(k)
  {
    if k == 0 {
    } else {
      IndexBelow(x / 2, y / 2, k - 1);
    }
  }

  lemma {:induction false} Monotone(a: nat, b: nat)
    requires Pow2(a) < Pow2(b)
    ensures a < b
  {
    if a == 0 || b == 0 {
    } else {
      Monotone(a - 1, b - 1);
    }
  }

  /** The sum of the odd numbers from 3 to 2 v + 1, which is (v + 1)^2 - 1. */
  function Last(v: nat): nat {
    if v == 0 then 0 else Last(v - 1) + 2 * v + 1
  }

  lemma {:induction false} LastSquare(v: nat)
    ensures (v + 1) * (v + 1) == Last(v) + 1
  {
    if v == 0 {
    } else {
      LastSquare(v - 1);
    }
  }

  lemma {:induction false} LastHalf(u: nat, b: nat)
    requires b <= 1
    ensures Last(b + 2 * u) == 4 * Last(u) + (if b == 1 then 3 else -4 * u)
  {
    if u == 0 {
    } else {
      LastHalf(u - 1, b);
      assert b + 2 * (u - 1) == b + 2 * u - 1 - 1;
    }
  }

  /** The corner pixel (v, v) sits at (v + 1)^2 - 1 when v + 1 is a power of two, and beyond it otherwise. */
  lemma {:induction false} Corner(v: nat, k: nat)
    requires v < Pow2(k)
    ensures Index(v, v, k) >= Last(v)
    ensures !PowerOfTwo(v + 1) ==> Index(v, v, k) > Last(v)
  {
    if k > 0 {
      Corner(v / 2, k - 1);
      LastHalf(v / 2, v % 2);
      if v % 2 == 1 {
        assert v + 1 == 2 * (v / 2 + 1);
      }
    } else {
      assert v == 0;
    }
  }

  ghost predicate Lands(n: nat, x: nat, y: nat) {
    Index(x, y, 10) < n * n
  }

  ghost predicate Fits(n: nat) {
    forall x: nat, y: nat | x < n && y < n :: Lands(n, x, y)
  }

  lemma MulMonotone(n: nat)
    requires n >= 1024
    ensures n * n >= 1024 * 1024
  {
    assert n * n == 1024 * 1024 + 2 * 1024 * (n - 1024) + (n - 1024) * (n - 1024);
  }

  lemma FitsLarge(n: nat)
    requires n >= 1024
    ensures Fits(n)
  {
    assert Pow4(10) == 1024 * 1024;
    MulMonotone(n);
    forall x: nat, y: nat | x < n && y < n ensures Lands(n, x, y) { IndexBelow(x, y, 10); }
  }

  lemma FitsPower(n: nat)
    requires PowerOfTwo(n) && n < 1024
    ensures Fits(n)
  {
    var k := Root(n);
    assert Pow2(10) == 1024;
    Monotone(k, 10);
    forall x: nat, y: nat | x < n && y < n ensures Lands(n, x, y) {
      Widen(x, y, k, 10 - k);
      Recovered(x, y, k);
    }
  }

  lemma FitsNot(n: nat)
    requires 0 < n < 1024 && !PowerOfTwo(n)
    ensures !Fits(n)
  {
    var v := n - 1;
    assert Pow2(10) == 1024;
    Corner(v, 10);
    LastSquare(v);
    assert !Lands(n, v, v);
  }

  /** Every subscript of an n x n twiddled texture is in range exactly when n is zero, a power of two, or
      at least 1024. */
  lemma FitsExactly(n: nat)
    ensures Fits(n) <==> n == 0 || PowerOfTwo(n) || n >= 1024
  {
    if n >= 1024 {
      FitsLarge(n);
    } else if PowerOfTwo(n) {
      FitsPower(n);
    } else if n > 0 {
      FitsNot(n);
    }
  }

  ghost predicate Apart(n: nat) {
    forall x: nat, y: nat, x': nat, y': nat | x < n && y < n && x' < n && y' < n && Index(x, y, 10) == Index(x', y', 10)
      :: x == x' && y == y'
  }

  lemma {:induction false} Wraps(x: nat, k: nat)
    requires x == Pow2(k)
    ensures Index(x, 0, k) == Index(0, 0, k)
  {
    if k == 0 {
    } else {
      Wraps(x / 2, k - 1);
    }
  }

  /** Past 1024 the subscripts wrap instead: pixels share a position exactly when the side exceeds 1024. */
  lemma ApartExactly(n: nat)
    ensures Apart(n) <==> n <= 1024
  {
    assert Pow2(10) == 1024;
    if n <= 1024 {
      Bijection(10);
    } else {
      Wraps(1024, 10);
      assert Index(1024, 0, 10) == Index(0, 0, 10);
    }
  }

  /** A square-twiddled texture of any of the three formats with all its data decodes without error, one
      position a pixel, exactly for side zero and the powers of two up to 1024. */
  lemma SquareExactly(t: Texture)
    requires t.layout == TWIDDLED && t.w == t.h && t.format <= 2 && 2 * (t.w * t.h) <= |t.data|
    ensures Legible(t) <==> t.w == 0 || PowerOfTwo(t.w) || t.w >= 1024
    ensures Legible(t) && Apart(t.w) <==> t.w == 0 || (PowerOfTwo(t.w) && t.w <= 1024)
  {
    FitsExactly(t.w);
    ApartExactly(t.w);
    forall x: nat, y: nat | x < t.w && y < t.h ensures Within(t, x, y) <==> Lands(t.w, x, y) {}
    if t.w == 1024 {
      assert PowerOfTwo(1) && PowerOfTwo(2) && PowerOfTwo(4) && PowerOfTwo(8) && PowerOfTwo(16) && PowerOfTwo(32);
      assert PowerOfTwo(64) && PowerOfTwo(128) && PowerOfTwo(256) && PowerOfTwo(512) && PowerOfTwo(1024);
    }
  }

  lemma RowsBelow(a: nat, b: nat, n: nat)
    requires a <= b
    ensures a * n <= b * n
  {
    MulNonNegative(b - a, n);
    assert b * n == a * n + (b - a) * n;
  }

  lemma RasterWithin(w: nat, h: nat, x: nat, y: nat)
    requires x < w && y < h
    ensures y * w + x < w * h
  {
    assert (y + 1) * w == y * w + w;
    RowsBelow(y + 1, h, w);
  }

  /** A raster texture with all its data always decodes. */
  lemma RasterAlways(t: Texture)
    requires t.layout == RASTER && t.format <= 2 && 2 * (t.w * t.h) <= |t.data|
    ensures Legible(t)
  {
    forall x: nat, y: nat | x < t.w && y < t.h ensures Within(t, x, y) { RasterWithin(t.w, t.h, x, y); }
  }

  // ---- make_gdi.patch_gdtex ----

  const BYTES: nat := 131072

  /** Where the encoder stores a pixel's low byte. */
  function Slot(x: nat, y: nat): (o: nat)
    requires x < 256 && y < 256
    ensures o + 1 < BYTES
  {
    FormsAgree(x, y);
    2 * Index(x, y, 8)
  }

  lemma SlotsApart(x: nat, y: nat, x': nat, y': nat)
    requires x < 256 && y < 256 && x' < 256 && y' < 256 && (x != x' || y != y')
    ensures Slot(x, y) != Slot(x', y')
  {
    assert Pow2(8) == 256;
    Recovered(x, y, 8);
    Recovered(x', y', 8);
  }

  lemma SlotReached(k: nat) returns (x: nat, y: nat)
    requires k < BYTES
    ensures x < 256 && y < 256 && k == Slot(x, y) + k % 2
  {
    assert Pow2(8) == 256 && Pow4(8) == 65536;
    Reached(k / 2, 8);
    x, y := Col(k / 2, 8), Morton.Row(k / 2, 8);
  }

  /** Pixel (x, y) of the row-major bytes src is at its slot of dst. */
  predicate Placed(src: seq<byte>, dst: seq<byte>, x: nat, y: nat)
    requires |src| == |dst| == BYTES && x < 256 && y < 256
  {
    dst[Slot(x, y)] == src[512 * y + 2 * x] && dst[Slot(x, y) + 1] == src[512 * y + 2 * x + 1]
  }

  ghost predicate PlacedBefore(src: seq<byte>, dst: seq<byte>, x: nat, y: nat)
    requires |src| == |dst| == BYTES && x <= 256 && y < 256
  {
    forall x', y' | 0 <= x' < 256 && 0 <= y' <= y && (y' == y ==> x' < x) :: Placed(src, dst, x', y')
  }

  ghost predicate Twiddled(src: seq<byte>, dst: seq<byte>) {
    |src| == |dst| == BYTES && forall x, y | 0 <= x < 256 && 0 <= y < 256 :: Placed(src, dst, x, y)
  }

  /** dst is was with pixel (x, y) stored; another pixel stays where it is. */
  lemma PlacedStays(src: seq<byte>, was: seq<byte>, dst: seq<byte>, x: nat, y: nat, x': nat, y': nat)
    requires |src| == |was| == |dst| == BYTES && x < 256 && y < 256 && x' < 256 && y' < 256 && (x != x' || y != y')
    requires dst == was[Slot(x, y) := src[512 * y + 2 * x]][Slot(x, y) + 1 := src[512 * y + 2 * x + 1]]
    requires Placed(src, was, x', y')
    ensures Placed(src, dst, x', y')
  {
    SlotsApart(x, y, x', y');
  }

  lemma PlaceNext(src: seq<byte>, was: seq<byte>, dst: seq<byte>, x: nat, y: nat)
    requires |src| == |was| == |dst| == BYTES && x < 256 && y < 256
    requires PlacedBefore(src, was, x, y)
    requires dst == was[Slot(x, y) := src[512 * y + 2 * x]][Slot(x, y) + 1 := src[512 * y + 2 * x + 1]]
    ensures PlacedBefore(src, dst, x + 1, y)
  {
    forall x', y' | 0 <= x' < 256 && 0 <= y' <= y && (y' == y ==> x' < x + 1) ensures Placed(src, dst, x', y') {
      if x' != x || y' != y {
        assert Placed(src, was, x', y');
        PlacedStays(src, was, dst, x, y, x', y');
      }
    }
  }

  lemma OffsetIsSlot(x: nat, y: nat)
    requires x < 256 && y < 256
    ensures Or(SpreadSum(y, 8), Shl(SpreadSum(x, 8), 1)) * 2 == Slot(x, y)
  {
    FormsAgree(x, y);
    assert Shl(SpreadSum(x, 8), 1) == 2 * SpreadSum(x, 8);
  }

  lemma PlacedAll(src: seq<byte>, dst: seq<byte>)
    requires |src| == |dst| == BYTES && PlacedBefore(src, dst, 256, 255)
    ensures Twiddled(src, dst)
  {}

  /** (sy | spread[x] << 1) * 2 */
  method Offset(sy: nat, sx: nat, ghost x: nat, ghost y: nat) returns (o: nat)
    requires x < 256 && y < 256 && sy == SpreadSum(y, 8) && sx == SpreadSum(x, 8)
    ensures o == Slot(x, y)
  {
    OffsetIsSlot(x, y);
    o := Or(sy, Shl(sx, 1)) * 2;
  }

  method StorePair(dst: array<byte>, o: nat, low: byte, high: byte)
    requires o + 1 < dst.Length
    modifies dst
    ensures dst[..] == old(dst[..])[o := low][o + 1 := high]
  {
    dst[o] := low;
    dst[o + 1] := high;
  }

  lemma RowStarts(src: seq<byte>, dst: seq<byte>, y: nat)
    requires |src| == |dst| == BYTES && y < 256 && (y > 0 ==> PlacedBefore(src, dst, 256, y - 1))
    ensures PlacedBefore(src, dst, 0, y)
  {}

  method TwiddleRow(src: seq<byte>, dst: array<byte>, spread: seq<nat>, y: nat)
    requires |src| == dst.Length == BYTES && y < 256
    requires |spread| == 256 && forall v | 0 <= v < 256 :: spread[v] == SpreadSum(v, 8)
    requires y > 0 ==> PlacedBefore(src, dst[..], 256, y - 1)
    modifies dst
    ensures PlacedBefore(src, dst[..], 256, y)
  {
    RowStarts(src, dst[..], y);
    for x := 0 to 256
      invariant PlacedBefore(src, dst[..], x, y)
    {
      ghost var was := dst[..];
      var o := Offset(spread[y], spread[x], x, y);
      StorePair(dst, o, src[y * 512 + x * 2], src[y * 512 + x * 2 + 1]);
      PlaceNext(src, was, dst[..], x, y);
    }
  }

  method Twiddle(src: seq<byte>) returns (dst: array<byte>)
    requires |src| == BYTES
    ensures fresh(dst) && Twiddled(src, dst[..])
  {
    var spread: seq<nat> := seq(256, v requires 0 <= v => SpreadSum(v, 8));
    dst := new byte[|src|](_ => 0);
    for y := 0 to 256
      invariant y > 0 ==> PlacedBefore(src, dst[..], 256, y - 1)
    {
      TwiddleRow(src, dst, spread, y);
    }
    PlacedAll(src, dst[..]);
  }

  /** The twiddled bytes determine the source and are determined by it. */
  lemma TwiddledUnique(src: seq<byte>, dst: seq<byte>, src': seq<byte>, dst': seq<byte>)
    requires Twiddled(src, dst) && Twiddled(src', dst')
    ensures src == src' <==> dst == dst'
  {
    if src == src' {
      forall k | 0 <= k < BYTES ensures dst[k] == dst'[k] {
        var x, y := SlotReached(k);
        assert Placed(src, dst, x, y) && Placed(src', dst', x, y);
      }
    }
    if dst == dst' {
      forall k | 0 <= k < BYTES ensures src[k] == src'[k] {
        var x, y := k % 512 / 2, k / 512;
        assert Placed(src, dst, x, y) && Placed(src', dst', x, y);
        assert k == 512 * y + 2 * x || k == 512 * y + 2 * x + 1;
      }
    }
  }

  function SourceLine(src: seq<byte>, y: nat): seq<Rgb>
    requires |src| == BYTES && y < 256
  {
    seq(256, x requires 0 <= x < 256 => Colour(Le16(src, 512 * y + 2 * x), RGB565))
  }

  lemma PrefixWord(s: seq<byte>, rest: seq<byte>, i: nat)
    requires i + 2 <= |s|
    ensures Le16(s + rest, i) == Le16(s, i)
  {}

  lemma PixelOfEncoded(src: seq<byte>, dst: seq<byte>, t: Texture, x: nat, y: nat, rest: seq<byte>)
    requires Twiddled(src, dst) && t == Texture(RGB565, TWIDDLED, 256, 256, dst + rest) && Legible(t)
    requires x < 256 && y < 256
    ensures Word(t, x, y) == Le16(src, 512 * y + 2 * x)
  {
    var o := Slot(x, y);
    assert 2 * Position(t, x, y) == o by { FormsAgree(x, y); }
    PrefixWord(dst, rest, o);
    assert Placed(src, dst, x, y);
  }

  ghost predicate PixelIs(t: Texture, y: nat, line: seq<Rgb>, x: nat)
    requires Legible(t) && y < t.h && |line| == t.w && x < t.w
  {
    Pixel(t, x, y) == line[x]
  }

  lemma LineIs(t: Texture, y: nat, line: seq<Rgb>)
    requires Legible(t) && y < t.h && |line| == t.w && forall x: nat | x < t.w :: PixelIs(t, y, line, x)
    ensures Line(t, y) == line
  {
    forall x | 0 <= x < t.w ensures Line(t, y)[x] == line[x] { assert PixelIs(t, y, line, x); }
  }

  lemma LineOfEncoded(src: seq<byte>, dst: seq<byte>, t: Texture, y: nat, rest: seq<byte>)
    requires Twiddled(src, dst) && t == Texture(RGB565, TWIDDLED, 256, 256, dst + rest) && Legible(t) && y < 256
    ensures Line(t, y) == SourceLine(src, y)
  {
    var line := SourceLine(src, y);
    forall x: nat | x < 256 ensures PixelIs(t, y, line, x) { PixelOfEncoded(src, dst, t, x, y, rest); }
    LineIs(t, y, line);
  }

  /** The 256 x 256 image a row-major RGB565 file holds. */
  function SourceRows(src: seq<byte>): seq<seq<Rgb>>
    requires |src| == BYTES
  {
    seq(256, y requires 0 <= y < 256 => SourceLine(src, y))
  }

  lemma Legible256(t: Texture)
    requires t.format == RGB565 && t.layout == TWIDDLED && t.w == t.h == 256 && |t.data| >= BYTES
    ensures Legible(t)
  {
    assert PowerOfTwo(1) && PowerOfTwo(2) && PowerOfTwo(4) && PowerOfTwo(8) && PowerOfTwo(16);
    assert PowerOfTwo(32) && PowerOfTwo(64) && PowerOfTwo(128) && PowerOfTwo(256);
    SquareExactly(t);
  }

  /** The 32 bytes in front of a donor's texture, as far as the builder checks them. */
  predicate DonorHeader(hdr: seq<byte>) {
    && |hdr| == 32 && hdr[..4] == [0x47, 0x42, 0x49, 0x58] && hdr[16..20] == [0x50, 0x56, 0x52, 0x54]
    && hdr[24..26] == [0x01, 0x01] && hdr[28..32] == [0x00, 0x01, 0x00, 0x01]
  }

  lemma DonorReads(hdr: seq<byte>, data: seq<byte>)
    requires DonorHeader(hdr) && forall i | 0 < i <= 12 :: !SignatureAt(hdr, i)
    ensures Header(hdr + data) == Some(Texture(RGB565, TWIDDLED, 256, 256, data))
  {
    var file, pre, size, gap := hdr + data, hdr[..16], hdr[20..24], hdr[26..28];
    assert Pack16(256) == [0x00, 0x01];
    assert hdr == pre + hdr[16..20] + size + hdr[24..26] + gap + hdr[28..32];
    assert hdr[28..32] == Pack16(256) + Pack16(256);
    assert file == pre + [0x50, 0x56, 0x52, 0x54] + size + [0x01, 0x01] + gap + Pack16(256) + Pack16(256) + data;
    forall i | 0 <= i < 16 ensures !SignatureAt(file, i) {
      assert file[i..i + 4] == hdr[i..i + 4];
      assert hdr[16..20][0] == hdr[16] && hdr[..4][0] == hdr[0];
      if 0 < i <= 12 { assert !SignatureAt(hdr, i); }
      if 13 <= i { assert hdr[i..i + 4][16 - i] == hdr[16]; }
      if i == 0 { assert hdr[i..i + 4][0] == hdr[0]; }
    }
    HeaderReads(file, pre, size, 1, 1, gap, 256, 256, data);
  }

  /** What the viewer shows of the file the encoder wrote: the source image, pixel for pixel. The donor's
      header survives in front of the pixels, and whatever followed them behind. */
  lemma EncodedDecodes(src: seq<byte>, dst: seq<byte>, hdr: seq<byte>, rest: seq<byte>)
    requires Twiddled(src, dst)
    requires DonorHeader(hdr) && forall i | 0 < i <= 12 :: !SignatureAt(hdr, i)
    ensures Decode(hdr + dst + rest) == Some(Image(256, 256, SourceRows(src)))
  {
    var t := Texture(RGB565, TWIDDLED, 256, 256, dst + rest);
    assert hdr + dst + rest == hdr + (dst + rest);
    DonorReads(hdr, dst + rest);
    Legible256(t);
    forall y | 0 <= y < 256 ensures Decoded(t).rows[y] == SourceLine(src, y) {
      LineOfEncoded(src, dst, t, y, rest);
    }
    assert Decoded(t).rows == SourceRows(src);
  }

  /** What the decoder turns down: a layout other than the two, a twiddled texture that is not square, missing
      data, a format other than the three where there is a pixel. */
  lemma Refused(file: seq<byte>, t: Texture)
    requires Header(file) == Some(t)
    requires || (t.layout != 0x01 && t.layout != 0x09) || (t.layout == 0x01 && t.w != t.h)
             || |t.data| < 2 * (t.w * t.h) || (t.format >= 3 && t.w > 0 && t.h > 0)
    ensures Decode(file) == None
  {}

  /** A raster texture is its words, row after row. */
  lemma RasterDecodes(t: Texture, x: nat, y: nat)
    requires t.layout == 0x09 && t.format <= 2 && 2 * (t.w * t.h) <= |t.data| && x < t.w && y < t.h
    ensures Legible(t) && 0 <= 2 * (y * t.w + x) <= |t.data| - 2
    ensures Decoded(t).rows[y][x] == Colour(Le16(t.data, 2 * (y * t.w + x)), t.format)
  {
    RasterAlways(t);
    RasterWithin(t.w, t.h, x, y);
  }
}
