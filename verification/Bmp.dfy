/** The bitmap the viewer prints and the one the framebuffer converter parses, and the round trip from
    RGB565 pixels through both. */
module Bmp {
  import opened Options
  import opened Words
  import opened Bits
  import Morton
  import opened Pvr

  // ---- equal-width lines laid end to end ----

  function Flat(lines: seq<seq<byte>>): seq<byte> {
    if lines == [] then [] else Flat(lines[..|lines| - 1]) + lines[|lines| - 1]
  }

  ghost predicate Wide(lines: seq<seq<byte>>, n: nat) {
    forall k | 0 <= k < |lines| :: |lines[k]| == n
  }

  lemma Successor(k: int, n: int)
    ensures (k + 1) * n == k * n + n
  {}

  lemma {:induction false} FlatLength(lines: seq<seq<byte>>, n: nat)
    requires Wide(lines, n)
    ensures |Flat(lines)| == |lines| * n
  {
    if lines == [] {
    } else {
      FlatLength(lines[..|lines| - 1], n);
      Successor(|lines| - 1, n);
    }
  }

  /** Line k, cut out of the middle. */
  lemma {:induction false} FlatSlice(lines: seq<seq<byte>>, n: nat, k: nat, at: nat)
    requires Wide(lines, n) && k < |lines| && at == k * n
    ensures at + n <= |Flat(lines)| && Flat(lines)[at..at + n] == lines[k]
  {
    var front := lines[..|lines| - 1];
    FlatLength(front, n);
    if k == |front| {
    } else {
      FlatSlice(front, n, k, at);
      assert Flat(lines)[at..at + n] == Flat(front)[at..at + n];
    }
  }

  // ---- pvrview.write_bmp ----

  function Pad(w: nat): nat { (-(3 * w)) % 4 }

  function Channel(p: Rgb, c: nat): byte {
    if c == 0 then p.b else if c == 1 then p.g else p.r
  }

  /** One padded scan line: blue, green, red for each pixel, then zeros. */
  function ScanLine(row: seq<Rgb>): (s: seq<byte>)
    ensures |s| == 3 * |row| + Pad(|row|)
  {
    seq(3 * |row|, i requires 0 <= i < 3 * |row| => Channel(row[i / 3], i % 3)) + seq(Pad(|row|), _ => 0)
  }

  /** The scan lines, bottom row first. */
  function BottomUp(rows: seq<seq<Rgb>>): (lines: seq<seq<byte>>)
    ensures |lines| == |rows|
    ensures forall k | 0 <= k < |rows| :: lines[k] == ScanLine(rows[|rows| - 1 - k])
  {
    seq(|rows|, k requires 0 <= k < |rows| => ScanLine(rows[|rows| - 1 - k]))
  }

  /** struct.pack("<2sIHHI", ...) + struct.pack("<IiiHHIIiiII", ...) around a body of n bytes. */
  function FileHeader(n: u32): (s: seq<byte>)
    requires 54 + n < 0x1_0000_0000
    ensures |s| == 14
  {
    [0x42, 0x4d] + Pack32(54 + n) + Pack16(0) + Pack16(0) + Pack32(54)
  }

  function InfoHeader(w: u16, h: u16, n: u32): (s: seq<byte>)
    ensures |s| == 40
  {
    Pack32(40) + Pack32(w) + Pack32(h) + Pack16(1) + Pack16(24) + Pack32(0) + Pack32(n) + Pack32(2835) + Pack32(2835)
    + Pack32(0) + Pack32(0)
  }

  /** None when the length does not fit the header's 32-bit field, where packing raises. */
  function WriteBmp(image: Image): Option<seq<byte>> {
    var body := Flat(BottomUp(image.rows));
    if 54 + |body| >= 0x1_0000_0000 then None
    else Some(FileHeader(|body|) + InfoHeader(image.w, image.h, |body|) + body)
  }

  // ---- bmp2rgb565.main ----

  function Signed(v: u32): int {
    if v < 0x8000_0000 then v else v - 0x1_0000_0000
  }

  function Abs(h: int): nat { if h < 0 then -h else h }

  lemma ShlFive(v: nat)
    ensures Shl(v, 5) == 32 * v
  {
    assert Shl(v, 1) == 2 * v && Shl(v, 2) == 2 * Shl(v, 1) && Shl(v, 3) == 2 * Shl(v, 2);
    assert Shl(v, 4) == 2 * Shl(v, 3) && Shl(v, 5) == 2 * Shl(v, 4);
  }

  lemma ShlSix(r: nat, g: nat)
    ensures Shl(g, 5) == 32 * g && Shl(r, 11) == 2048 * r && Shl(Shl(r, 6) + g, 5) == 2048 * r + 32 * g
  {
    ShlFive(g);
    ShlFive(Shl(r, 6) + g);
    ShlFive(r);
    assert Shl(r, 6) == 2 * Shl(r, 5) && Shl(r, 7) == 2 * Shl(r, 6) && Shl(r, 8) == 2 * Shl(r, 7);
    assert Shl(r, 9) == 2 * Shl(r, 8) && Shl(r, 10) == 2 * Shl(r, 9) && Shl(r, 11) == 2 * Shl(r, 10);
  }

  lemma FoldIsSum(r: nat, g: nat, b: nat)
    requires r < 32 && g < 64 && b < 32
    ensures Or(Or(Shl(r, 11), Shl(g, 5)), b) == 0x800 * r + 0x20 * g + b
  {
    var rg := Shl(r, 6) + g;
    ShlSix(r, g);
    assert Pow2(5) == 32 && Pow2(6) == 64 && Pow2(11) == 2048;
    OrShifted(r, Shl(g, 5), 11);
    OrShifted(rg, b, 5);
  }

  /** (r >> 3) << 11 | (g >> 2) << 5 | bl >> 3 */
  function Fold(p: Rgb): (v: nat)
    ensures v == 0x800 * (p.r / 8) + 0x20 * (p.g / 4) + p.b / 8 < 0x1_0000
  {
    FoldIsSum(p.r / 8, p.g / 4, p.b / 8);
    Or(Or(Shl(p.r / 8, 11), Shl(p.g / 4, 5)), p.b / 8)
  }

  /** What the converter reads from the headers. */
  datatype Bitmap = Bitmap(off: u32, w: int, h: int, bpp: u16, comp: u32)
  {
    predicate Accepted(ew: int, eh: int) {
      comp == 0 && (bpp == 24 || bpp == 32) && w == ew && Abs(h) == eh
    }

    function Px(): nat { bpp / 8 }
    function Stride(): int { (w * Px() + 3) / 4 * 4 }
    function Width(): nat { if w < 0 then 0 else w }

    /** The k-th line taken: from the top, in a file that stores the bottom line first unless h is negative. */
    function Taken(k: nat): int { if h > 0 then h - 1 - k else k }
  }

  function Fields(b: seq<byte>): Option<Bitmap> {
    if |b| < 0x22 || b[..2] != [0x42, 0x4d] then None
    else Some(Bitmap(Le32(b, 0x0a), Signed(Le32(b, 0x12)), Signed(Le32(b, 0x16)), Le16(b, 0x1c), Le32(b, 0x1e)))
  }

  /** The first x pixels of the line at r0, packed; None when a subscript runs off the file. */
  function LineWords(b: seq<byte>, r0: int, px: nat, x: nat): Option<seq<byte>>
    requires x == 0 || r0 >= 0
  {
    if x == 0 then Some([])
    else
      var front := LineWords(b, r0, px, x - 1);
      var i := r0 + (x - 1) * px;
      if front.None? || i + 2 >= |b| then None
      else Some(front.value + Pack16(Fold(Rgb(b[i + 2], b[i + 1], b[i]))))
  }

  /** Where the k-th line taken starts; never before the file when the line has pixels. */
  function LineStart(m: Bitmap, k: nat): (r0: int)
    requires k < Abs(m.h)
    ensures m.w >= 0 ==> r0 >= 0
  {
    if m.w >= 0 then
      MulNonNegative(m.w, m.Px());
      MulNonNegative(m.Taken(k), m.Stride());
      m.off + m.Taken(k) * m.Stride()
    else m.off + m.Taken(k) * m.Stride()
  }

  function Lines(b: seq<byte>, m: Bitmap, k: nat): Option<seq<byte>>
    requires k <= Abs(m.h)
  {
    if k == 0 then Some([])
    else
      var above, line := Lines(b, m, k - 1), LineWords(b, LineStart(m, k - 1), m.Px(), m.Width());
      if above.None? || line.None? then None else Some(above.value + line.value)
  }

  function Converted(b: seq<byte>, ew: int, eh: int): Option<seq<byte>> {
    var m := Fields(b);
    if m.None? || !m.value.Accepted(ew, eh) then None else Lines(b, m.value, Abs(m.value.h))
  }

  /** What the converter turns down: another file, a compressed one, other pixel sizes, another size. */
  lemma ConvertRefuses(b: seq<byte>, ew: int, eh: int)
    requires || |b| < 0x22 || b[0] != 0x42 || b[1] != 0x4d || Le32(b, 0x1e) != 0 || Le16(b, 0x1c) !in {24, 32}
             || Le32(b, 0x12) != (if ew < 0 then ew + 0x1_0000_0000 else ew)
             || (Le32(b, 0x16) != eh && Le32(b, 0x16) + eh != 0x1_0000_0000)
    ensures Converted(b, ew, eh) == None
  {}

  /** No pixel is read off the end of the file. */
  lemma {:induction false} LineInside(b: seq<byte>, r0: int, px: nat, w: nat, x: nat)
    requires (w == 0 || r0 >= 0) && LineWords(b, r0, px, w).Some? && x < w
    ensures r0 + x * px + 2 < |b|
  {
    if x == w - 1 {
    } else {
      LineInside(b, r0, px, w - 1, x);
    }
  }

  lemma {:induction false} LineStops(b: seq<byte>, r0: int, px: nat, x: nat, w: nat)
    requires x <= w && (w == 0 || r0 >= 0) && LineWords(b, r0, px, x) == None
    ensures LineWords(b, r0, px, w) == None
  {
    if x == w {
    } else {
      LineStops(b, r0, px, x, w - 1);
    }
  }

  method ConvertLine(b: seq<byte>, r0: int, px: nat, w: nat) returns (r: Option<seq<byte>>)
    requires w == 0 || r0 >= 0
    ensures r == LineWords(b, r0, px, w)
  {
    var out: seq<byte> := [];
    for x := 0 to w
      invariant LineWords(b, r0, px, x) == Some(out)
    {
      var i := r0 + x * px;
      if i + 2 >= |b| {
        LineStops(b, r0, px, x + 1, w);
        return None;
      }
      MulNonNegative(x, px);
      out := out + Pack16(Fold(Rgb(b[i + 2], b[i + 1], b[i])));
    }
    return Some(out);
  }

  lemma {:induction false} LinesStop(b: seq<byte>, m: Bitmap, k: nat, n: nat)
    requires k <= n <= Abs(m.h) && Lines(b, m, k) == None
    ensures Lines(b, m, n) == None
  {
    if k == n {
    } else {
      LinesStop(b, m, k, n - 1);
    }
  }

  method Bmp2Rgb565(b: seq<byte>, ew: int, eh: int) returns (r: Option<seq<byte>>)
    ensures r == Converted(b, ew, eh)
  {
    var fields := Fields(b);
    if fields.None? || !fields.value.Accepted(ew, eh) {
      return None;
    }
    var m := fields.value;
    var out: seq<byte> := [];
    for k := 0 to Abs(m.h)
      invariant Lines(b, m, k) == Some(out)
    {
      var line := ConvertLine(b, LineStart(m, k), m.Px(), m.Width());
      if line.None? {
        LinesStop(b, m, k + 1, Abs(m.h));
        return None;
      }
      out := out + line.value;
    }
    return Some(out);
  }

  // ---- the round trip ----

  function Folded(row: seq<Rgb>): (s: seq<byte>)
    ensures |s| == 2 * |row|
  {
    if row == [] then [] else Folded(row[..|row| - 1]) + Pack16(Fold(row[|row| - 1]))
  }

  lemma {:induction false} FoldedAt(row: seq<Rgb>, x: nat)
    requires x < |row|
    ensures Le16(Folded(row), 2 * x) == Fold(row[x])
  {
    var front := row[..|row| - 1];
    if x == |front| {
    } else {
      FoldedAt(front, x);
    }
  }

  /** The rows, top first, as packed lines. */
  function Packed(rows: seq<seq<Rgb>>): (lines: seq<seq<byte>>)
    ensures |lines| == |rows|
    ensures forall k | 0 <= k < |rows| :: lines[k] == Folded(rows[k])
  {
    seq(|rows|, k requires 0 <= k < |rows| => Folded(rows[k]))
  }

  function LineWidth(w: nat): nat { 3 * w + Pad(w) }

  lemma LineWidthIsStride(w: nat)
    ensures LineWidth(w) == (w * 3 + 3) / 4 * 4
  {}

  lemma BodyLength(image: Image)
    requires Framed(image)
    ensures |Flat(BottomUp(image.rows))| == image.h * LineWidth(image.w)
  {
    FlatLength(BottomUp(image.rows), LineWidth(image.w));
  }

  /** A bitmap is printed exactly when its file length fits in 32 bits. */
  lemma PrintsExactly(image: Image)
    requires Framed(image)
    ensures WriteBmp(image).Some? <==> 54 + image.h * LineWidth(image.w) < 0x1_0000_0000
    ensures WriteBmp(image).Some? ==> |WriteBmp(image).value| == 54 + image.h * LineWidth(image.w)
  {
    BodyLength(image);
  }

  /** A raster of the largest size with all its data decodes and yet is not printed. */
  lemma TooLarge(t: Texture)
    requires t.layout == RASTER && t.format <= 2 && t.w == t.h == 0xffff && |t.data| >= 0x1_fffc_0002
    ensures Legible(t) && WriteBmp(Decoded(t)) == None
  {
    assert t.w * t.h == 0xfffe_0001;
    RasterAlways(t);
    PrintsExactly(Decoded(t));
  }

  lemma InfoHeaderReads(w: u16, h: u16, n: u32)
    ensures var s := InfoHeader(w, h, n);
            Le32(s, 4) == w && Le32(s, 8) == h && Le16(s, 14) == 24 && Le32(s, 16) == 0
  {
    var s := InfoHeader(w, h, n);
    assert s[4..8] == Pack32(w) && s[8..12] == Pack32(h) && s[14..16] == Pack16(24) && s[16..20] == Pack32(0);
    Unpack32(s, 4, w);
    Unpack32(s, 8, h);
    Unpack16(s, 14, 24);
    Unpack32(s, 16, 0);
  }

  /** The fields the converter does not look at. */
  lemma InfoRestReads(w: u16, h: u16, n: u32)
    ensures var s := InfoHeader(w, h, n);
            && Le32(s, 0) == 40 && Le32(s, 12) == 0x18_0001 && Le32(s, 20) == n
            && Le32(s, 24) == 2835 && Le32(s, 28) == 2835 && Le32(s, 32) == 0 && Le32(s, 36) == 0
  {
    var s := InfoHeader(w, h, n);
    assert s[0..4] == Pack32(40) && s[12..14] == Pack16(1) && s[14..16] == Pack16(24) && s[20..24] == Pack32(n);
    assert s[24..28] == Pack32(2835) && s[28..32] == Pack32(2835) && s[32..36] == Pack32(0) && s[36..40] == Pack32(0);
    Unpack32(s, 0, 40);
    Unpack16(s, 12, 1);
    Unpack16(s, 14, 24);
    Unpack32(s, 20, n);
    Unpack32(s, 24, 2835);
    Unpack32(s, 28, 2835);
    Unpack32(s, 32, 0);
    Unpack32(s, 36, 0);
  }

  lemma FileHeaderReads(n: u32)
    requires 54 + n < 0x1_0000_0000
    ensures var s := FileHeader(n);
            s[..2] == [0x42, 0x4d] && Le32(s, 2) == 54 + n && Le32(s, 6) == 0 && Le32(s, 10) == 54
  {
    var s := FileHeader(n);
    assert s[2..6] == Pack32(54 + n) && s[6..8] == Pack16(0) && s[8..10] == Pack16(0) && s[10..14] == Pack32(54);
    Unpack32(s, 2, 54 + n);
    Unpack16(s, 6, 0);
    Unpack16(s, 8, 0);
    Unpack32(s, 10, 54);
  }

  lemma ShiftedByte(file: seq<byte>, part: seq<byte>, at: nat, i: nat)
    requires i < |part| && at + |part| <= |file| && file[at..at + |part|] == part
    ensures file[at + i] == part[i]
  {
    assert file[at..at + |part|][i] == part[i];
  }

  /** A part of a file reads the same at its own offset. */
  lemma Shifted16(file: seq<byte>, part: seq<byte>, at: nat, i: nat)
    requires i + 2 <= |part| && at + |part| <= |file| && file[at..at + |part|] == part
    ensures Le16(file, at + i) == Le16(part, i)
  {
    ShiftedByte(file, part, at, i);
    ShiftedByte(file, part, at, i + 1);
  }

  lemma Shifted32(file: seq<byte>, part: seq<byte>, at: nat, i: nat)
    requires i + 4 <= |part| && at + |part| <= |file| && file[at..at + |part|] == part
    ensures Le32(file, at + i) == Le32(part, i)
  {
    ShiftedByte(file, part, at, i);
    ShiftedByte(file, part, at, i + 1);
    ShiftedByte(file, part, at, i + 2);
    ShiftedByte(file, part, at, i + 3);
  }

  /** Fields of a file made of the two headers and anything after them. */
  lemma FieldsAt(file: seq<byte>, f: seq<byte>, i: seq<byte>)
    requires |f| == 14 && |i| == 40 && f + i <= file && f[..2] == [0x42, 0x4d]
    ensures Fields(file) == Some(Bitmap(Le32(f, 10), Signed(Le32(i, 4)), Signed(Le32(i, 8)), Le16(i, 14), Le32(i, 16)))
  {
    assert file[0..0 + 14] == f && file[14..14 + 40] == i && file[..2] == f[..2];
    Shifted32(file, f, 0, 10);
    Shifted32(file, i, 14, 4);
    Shifted32(file, i, 14, 8);
    Shifted16(file, i, 14, 14);
    Shifted32(file, i, 14, 16);
  }

  lemma FieldsOfPrinted(image: Image, file: seq<byte>)
    requires WriteBmp(image) == Some(file)
    ensures Fields(file) == Some(Bitmap(54, image.w, image.h, 24, 0))
  {
    var n := |Flat(BottomUp(image.rows))|;
    FileHeaderReads(n);
    InfoHeaderReads(image.w, image.h, n);
    FieldsAt(file, FileHeader(n), InfoHeader(image.w, image.h, n));
  }

  lemma PrintedParts(image: Image, file: seq<byte>)
    requires WriteBmp(image) == Some(file)
    ensures |file| >= 54 && file[0..14] == FileHeader(|file| - 54)
    ensures file[14..54] == InfoHeader(image.w, image.h, |file| - 54)
  {}

  lemma FilePrinted(file: seq<byte>, f: seq<byte>, n: u32)
    requires 54 + n < 0x1_0000_0000 && |file| >= 14 && file[0..14] == f == FileHeader(n)
    ensures file[..2] == [0x42, 0x4d] && Le32(file, 2) == 54 + n && Le32(file, 6) == 0 && Le32(file, 10) == 54
  {
    FileHeaderReads(n);
    assert file[..2] == f[..2];
    Shifted32(file, f, 0, 2);
    Shifted32(file, f, 0, 6);
    Shifted32(file, f, 0, 10);
  }

  lemma InfoPrinted(file: seq<byte>, f: seq<byte>, w: u16, h: u16, n: u32)
    requires |file| >= 54 && file[14..54] == f == InfoHeader(w, h, n)
    ensures Le32(file, 14) == 40 && Le32(file, 18) == w && Le32(file, 22) == h && Le32(file, 26) == 0x18_0001
    ensures Le32(file, 30) == 0 && Le32(file, 34) == n && Le32(file, 38) == 2835 && Le32(file, 42) == 2835
    ensures Le32(file, 46) == 0 && Le32(file, 50) == 0
  {
    InfoHeaderReads(w, h, n);
    InfoRestReads(w, h, n);
    Shifted32(file, f, 14, 0);
    Shifted32(file, f, 14, 4);
    Shifted32(file, f, 14, 8);
    Shifted32(file, f, 14, 12);
    Shifted32(file, f, 14, 16);
    Shifted32(file, f, 14, 20);
    Shifted32(file, f, 14, 24);
    Shifted32(file, f, 14, 28);
    Shifted32(file, f, 14, 32);
    Shifted32(file, f, 14, 36);
  }

  /** Every field of the headers printed: the lengths are the file's own. */
  lemma HeadersPrinted(image: Image, file: seq<byte>)
    requires WriteBmp(image) == Some(file)
    ensures |file| >= 54 && file[..2] == [0x42, 0x4d] && Le32(file, 2) == |file| && Le32(file, 6) == 0
    ensures Le32(file, 10) == 54 && Le32(file, 14) == 40 && Le32(file, 18) == image.w && Le32(file, 22) == image.h
    ensures Le32(file, 26) == 0x18_0001 && Le32(file, 30) == 0 && Le32(file, 34) == |file| - 54
    ensures Le32(file, 38) == 2835 && Le32(file, 42) == 2835 && Le32(file, 46) == 0 && Le32(file, 50) == 0
  {
    var n := |file| - 54;
    PrintedParts(image, file);
    FilePrinted(file, FileHeader(n), n);
    InfoPrinted(file, InfoHeader(image.w, image.h, n), image.w, image.h, n);
  }

  /** A scan line is filled up with zeros. */
  lemma FilledWithZeros(row: seq<Rgb>, i: nat)
    requires 3 * |row| <= i < |ScanLine(row)|
    ensures |ScanLine(row)| % 4 == 0 && i < 3 * |row| + 3 && ScanLine(row)[i] == 0
  {}

  /** The row's pixels lie in the file from r0 on, px bytes apart. */
  predicate Shown(file: seq<byte>, r0: int, px: nat, row: seq<Rgb>, x: nat, c: nat)
    requires x < |row| && c < 3
  {
    0 <= r0 + x * px + c < |file| && file[r0 + x * px + c] == Channel(row[x], c)
  }

  ghost predicate RowShown(file: seq<byte>, r0: int, px: nat, row: seq<Rgb>) {
    r0 >= 0 && forall x: nat, c: nat | x < |row| && c < 3 :: Shown(file, r0, px, row, x, c)
  }

  /** The three bytes of pixel x, as the converter puts them together. */
  lemma PixelReads(file: seq<byte>, r0: int, px: nat, row: seq<Rgb>, x: nat)
    requires RowShown(file, r0, px, row) && x < |row|
    ensures var i := r0 + x * px; 0 <= i && i + 2 < |file| && Rgb(file[i + 2], file[i + 1], file[i]) == row[x]
  {
    assert Shown(file, r0, px, row, x, 0) && Shown(file, r0, px, row, x, 1) && Shown(file, r0, px, row, x, 2);
  }

  lemma FoldedNext(row: seq<Rgb>, x: nat)
    requires x < |row|
    ensures Folded(row[..x + 1]) == Folded(row[..x]) + Pack16(Fold(row[x]))
  {
    assert row[..x + 1][..x] == row[..x] && row[..x + 1][x] == row[x];
  }

  lemma {:induction false} LineReads(file: seq<byte>, r0: int, px: nat, row: seq<Rgb>, x: nat)
    requires RowShown(file, r0, px, row) && x <= |row|
    ensures LineWords(file, r0, px, x) == Some(Folded(row[..x]))
  {
    if x == 0 {
    } else {
      LineReads(file, r0, px, row, x - 1);
      PixelReads(file, r0, px, row, x - 1);
      FoldedNext(row, x - 1);
    }
  }

  lemma ScanLineAt(row: seq<Rgb>, x: nat, c: nat)
    requires x < |row| && c < 3
    ensures ScanLine(row)[3 * x + c] == Channel(row[x], c)
  {
    assert (3 * x + c) / 3 == x && (3 * x + c) % 3 == c;
  }

  lemma Reslice(file: seq<byte>, head: nat, at: nat, n: nat)
    requires head + at + n <= |file|
    ensures file[head..][at..at + n] == file[head + at..head + at + n]
  {}

  lemma PixelShown(file: seq<byte>, row: seq<Rgb>, r0: nat, x: nat, c: nat)
    requires r0 + |ScanLine(row)| <= |file| && file[r0..r0 + |ScanLine(row)|] == ScanLine(row) && x < |row| && c < 3
    ensures Shown(file, r0, 3, row, x, c)
  {
    ScanLineAt(row, x, c);
    ShiftedByte(file, ScanLine(row), r0, 3 * x + c);
  }

  /** A scan line found at a place in the body is shown there, behind 54 bytes of header. */
  lemma BodyShown(file: seq<byte>, at: nat, row: seq<Rgb>, r0: nat)
    requires r0 == 54 + at && r0 + |ScanLine(row)| <= |file|
    requires file[54..][at..at + |ScanLine(row)|] == ScanLine(row)
    ensures RowShown(file, r0, 3, row)
  {
    Reslice(file, 54, at, |ScanLine(row)|);
    forall x: nat, c: nat | x < |row| && c < 3 ensures Shown(file, r0, 3, row, x, c) {
      PixelShown(file, row, r0, x, c);
    }
  }

  /** Line y of the output is read in full. */
  ghost predicate RowReads(file: seq<byte>, m: Bitmap, rows: seq<seq<Rgb>>, y: nat)
    requires y < Abs(m.h) == |rows|
  {
    LineWords(file, LineStart(m, y), m.Px(), m.Width()) == Some(Folded(rows[y]))
  }

  /** The file is 54 bytes and then the scan lines of the rows. */
  ghost predicate BodyIs(file: seq<byte>, rows: seq<seq<Rgb>>) {
    |file| >= 54 && file[54..] == Flat(BottomUp(rows))
  }

  lemma PrintedBody(image: Image, file: seq<byte>)
    requires WriteBmp(image) == Some(file)
    ensures BodyIs(file, image.rows)
  {}

  lemma PrintedShown(file: seq<byte>, rows: seq<seq<Rgb>>, w: nat, k: nat, at: nat, r0: nat)
    requires BodyIs(file, rows) && (forall y | 0 <= y < |rows| :: |rows[y]| == w) && k < |rows|
    requires at == k * LineWidth(w) && r0 == 54 + at
    ensures RowShown(file, r0, 3, rows[|rows| - 1 - k])
  {
    FlatSlice(BottomUp(rows), LineWidth(w), k, at);
    BodyShown(file, at, rows[|rows| - 1 - k], r0);
  }

  lemma RowsRead(file: seq<byte>, rows: seq<seq<Rgb>>, m: Bitmap, y: nat)
    requires Abs(m.h) == |rows| && y < |rows| && |rows[y]| == m.w
    requires RowShown(file, LineStart(m, y), m.Px(), rows[y])
    ensures RowReads(file, m, rows, y)
  {
    LineReads(file, LineStart(m, y), m.Px(), rows[y], m.w);
    assert rows[y][..m.w] == rows[y];
  }

  lemma PackedNext(rows: seq<seq<Rgb>>, k: nat)
    requires k < |rows|
    ensures Flat(Packed(rows[..k + 1])) == Flat(Packed(rows[..k])) + Folded(rows[k])
  {
    var lines := Packed(rows[..k + 1]);
    assert lines[..k] == Packed(rows[..k]) && lines[k] == Folded(rows[k]);
  }

  lemma LinesNext(file: seq<byte>, m: Bitmap, k: nat, before: seq<byte>, line: seq<byte>)
    requires k < Abs(m.h) && Lines(file, m, k) == Some(before)
    requires LineWords(file, LineStart(m, k), m.Px(), m.Width()) == Some(line)
    ensures Lines(file, m, k + 1) == Some(before + line)
  {}

  lemma {:induction false} LinesRead(file: seq<byte>, m: Bitmap, rows: seq<seq<Rgb>>, k: nat)
    requires Abs(m.h) == |rows| && k <= |rows| && forall y: nat | y < |rows| :: RowReads(file, m, rows, y)
    ensures Lines(file, m, k) == Some(Flat(Packed(rows[..k])))
  {
    if k == 0 {
    } else {
      LinesRead(file, m, rows, k - 1);
      assert RowReads(file, m, rows, k - 1);
      LinesNext(file, m, k - 1, Flat(Packed(rows[..k - 1])), Folded(rows[k - 1]));
      PackedNext(rows, k - 1);
    }
  }

  /** The row that line y of the output shows, in a file storing the bottom row first or the top row. */
  ghost predicate RowPlaced(file: seq<byte>, rows: seq<seq<Rgb>>, off: nat, stride: nat, px: nat, down: bool, y: nat)
    requires y < |rows|
  {
    RowShown(file, off + (if down then y else |rows| - 1 - y) * stride, px, rows[y])
  }

  ghost predicate AllPlaced(file: seq<byte>, rows: seq<seq<Rgb>>, off: nat, stride: nat, px: nat, down: bool) {
    forall y: nat | y < |rows| :: RowPlaced(file, rows, off, stride, px, down, y)
  }

  lemma StrideIs(m: Bitmap, stride: nat)
    requires stride % 4 == 0 && m.w * m.Px() <= stride < m.w * m.Px() + 4
    ensures m.Stride() == stride
  {}

  lemma StartIs(m: Bitmap, stride: nat, y: nat)
    requires m.Stride() == stride && y < Abs(m.h)
    ensures LineStart(m, y) == m.off + (if m.h < 0 then y else Abs(m.h) - 1 - y) * stride
  {}

  /** Three or four bytes a pixel, either row first, scan lines filled up to a multiple of four bytes: whatever
      rows a file shows, they are what is converted, top first, packed. */
  lemma BitmapConverts(file: seq<byte>, rows: seq<seq<Rgb>>, m: Bitmap, stride: nat, px: nat, down: bool)
    requires Fields(file) == Some(m) && m.comp == 0 && (px == 3 || px == 4) && m.bpp == 8 * px && down == (m.h < 0)
    requires Abs(m.h) == |rows| && m.w >= 0 && forall y | 0 <= y < |rows| :: |rows[y]| == m.w
    requires stride % 4 == 0 && m.w * px <= stride < m.w * px + 4
    requires AllPlaced(file, rows, m.off, stride, px, down)
    ensures Converted(file, m.w, |rows|) == Some(Flat(Packed(rows)))
  {
    StrideIs(m, stride);
    forall y: nat | y < |rows| ensures RowReads(file, m, rows, y) {
      assert RowPlaced(file, rows, m.off, stride, px, down, y);
      StartIs(m, stride, y);
      RowsRead(file, rows, m, y);
    }
    LinesRead(file, m, rows, |rows|);
    assert rows[..|rows|] == rows;
  }

  /** The header fields, read off the file's bytes: width and height are signed. */
  lemma HeaderIs(file: seq<byte>, off: u32, w: nat, h: int, bpp: u16)
    requires |file| >= 0x22 && file[0] == 0x42 && file[1] == 0x4d && Le32(file, 0x0a) == off && w < 0x8000_0000
    requires Le32(file, 0x12) == w && -0x8000_0000 <= h < 0x8000_0000
    requires Le32(file, 0x16) == (if h < 0 then h + 0x1_0000_0000 else h)
    requires Le16(file, 0x1c) == bpp && Le32(file, 0x1e) == 0
    ensures Fields(file) == Some(Bitmap(off, w, h, bpp, 0))
  {
    assert file[..2] == [0x42, 0x4d];
  }

  lemma PrintedPlaced(file: seq<byte>, rows: seq<seq<Rgb>>, w: nat, y: nat)
    requires BodyIs(file, rows) && (forall k | 0 <= k < |rows| :: |rows[k]| == w) && y < |rows|
    ensures RowPlaced(file, rows, 54, LineWidth(w), 3, false, y)
  {
    var k := |rows| - 1 - y;
    MulNonNegative(k, LineWidth(w));
    PrintedShown(file, rows, w, k, k * LineWidth(w), 54 + k * LineWidth(w));
  }

  lemma BodyPlaced(file: seq<byte>, rows: seq<seq<Rgb>>, w: nat)
    requires BodyIs(file, rows) && forall k | 0 <= k < |rows| :: |rows[k]| == w
    ensures AllPlaced(file, rows, 54, LineWidth(w), 3, false)
  {
    forall y: nat | y < |rows| ensures RowPlaced(file, rows, 54, LineWidth(w), 3, false, y) {
      PrintedPlaced(file, rows, w, y);
    }
  }

  lemma LineWidthFits(w: nat)
    ensures LineWidth(w) % 4 == 0 && w * 3 <= LineWidth(w) < w * 3 + 4
  {}

  lemma BodyConverts(file: seq<byte>, rows: seq<seq<Rgb>>, w: nat, stride: nat)
    requires AllPlaced(file, rows, 54, stride, 3, false) && stride == LineWidth(w)
    requires (forall k | 0 <= k < |rows| :: |rows[k]| == w) && Fields(file) == Some(Bitmap(54, w, |rows|, 24, 0))
    ensures Converted(file, w, |rows|) == Some(Flat(Packed(rows)))
  {
    LineWidthFits(w);
    BitmapConverts(file, rows, Bitmap(54, w, |rows|, 24, 0), stride, 3, false);
  }

  /** Parsing what was printed gives the image's rows, top first, packed. */
  lemma PrintedConverts(image: Image, file: seq<byte>)
    requires Framed(image) && WriteBmp(image) == Some(file)
    ensures Converted(file, image.w, image.h) == Some(Flat(Packed(image.rows)))
  {
    FieldsOfPrinted(image, file);
    PrintedBody(image, file);
    BodyPlaced(file, image.rows, image.w);
    BodyConverts(file, image.rows, image.w, LineWidth(image.w));
  }

  lemma FoldColour(v: u16)
    ensures Fold(Colour(v, RGB565)) == v
  {
    var r, g, b := v / 0x800, v / 0x20 % 64, v % 0x20;
    assert v / 0x20 / 64 == r;
    assert v / 0x20 == 64 * r + g;
    assert r % 32 == r;
    assert r * 8 / 8 == r && g * 4 / 4 == g && b * 8 / 8 == b;
  }

  lemma PackedAt(rows: seq<seq<Rgb>>, w: nat, x: nat, y: nat, at: nat)
    requires y < |rows| && x < w && forall k | 0 <= k < |rows| :: |rows[k]| == w
    requires at == y * (2 * w)
    ensures var out := Flat(Packed(rows)); at + 2 * x + 2 <= |out| && Le16(out, at + 2 * x) == Fold(rows[y][x])
  {
    var lines := Packed(rows);
    FlatSlice(lines, 2 * w, y, at);
    Shifted16(Flat(lines), Folded(rows[y]), at, 2 * x);
    FoldedAt(rows[y], x);
  }

  /** Pixel (x, y) of row-major 16-bit words. */
  predicate RowMajorAt(out: seq<byte>, w: nat, x: nat, y: nat, v: u16) {
    var i := y * (2 * w) + 2 * x;
    0 <= i < |out| - 1 && Le16(out, i) == v
  }

  /** The row-major bytes of the decoded image, packed. */
  ghost function Back(t: Texture): seq<byte>
    requires Legible(t)
  {
    Flat(Packed(Decoded(t).rows))
  }

  lemma PrintParse(t: Texture)
    requires Legible(t)
    ensures WriteBmp(Decoded(t)).Some? <==> 54 + t.h * LineWidth(t.w) < 0x1_0000_0000
    ensures WriteBmp(Decoded(t)).Some? ==> Converted(WriteBmp(Decoded(t)).value, t.w, t.h) == Some(Back(t))
  {
    PrintsExactly(Decoded(t));
    if WriteBmp(Decoded(t)).Some? { PrintedConverts(Decoded(t), WriteBmp(Decoded(t)).value); }
  }

  lemma BackAt(t: Texture, x: nat, y: nat)
    requires Legible(t) && t.format == RGB565 && x < t.w && y < t.h
    ensures RowMajorAt(Back(t), t.w, x, y, Word(t, x, y))
  {
    var rows := Decoded(t).rows;
    assert rows[y] == Line(t, y);
    MulNonNegative(y, 2 * t.w);
    PackedAt(rows, t.w, x, y, y * (2 * t.w));
    FoldColour(Word(t, x, y));
  }

  /** RGB565 pixels that are decoded, printed and parsed come back as the same words, row-major: for every
      texture the decoder reads whose bitmap's length fits in 32 bits, and no other is printed at all. */
  lemma RoundTrip(t: Texture)
    requires Legible(t) && t.format == RGB565
    ensures WriteBmp(Decoded(t)).Some? <==> 54 + t.h * LineWidth(t.w) < 0x1_0000_0000
    ensures WriteBmp(Decoded(t)).Some? ==> Converted(WriteBmp(Decoded(t)).value, t.w, t.h) == Some(Back(t))
    ensures |Back(t)| == t.h * (2 * t.w)
    ensures forall x: nat, y: nat | x < t.w && y < t.h :: RowMajorAt(Back(t), t.w, x, y, Word(t, x, y))
  {
    PrintParse(t);
    FlatLength(Packed(Decoded(t).rows), 2 * t.w);
    forall x: nat, y: nat | x < t.w && y < t.h ensures RowMajorAt(Back(t), t.w, x, y, Word(t, x, y)) {
      BackAt(t, x, y);
    }
  }

  lemma Small(w: nat, h: nat)
    requires w == h == 256
    ensures h * LineWidth(w) == 196608
  {}

  lemma SlotIsPosition(t: Texture, x: nat, y: nat)
    requires t.layout == TWIDDLED && x < 256 && y < 256
    ensures 2 * Position(t, x, y) == Slot(x, y)
  {
    Morton.FormsAgree(x, y);
  }

  lemma SameBytes(a: seq<byte>, i: nat, b: seq<byte>, j: nat)
    requires i + 2 <= |a| && j + 2 <= |b| && Le16(a, i) == Le16(b, j)
    ensures a[i] == b[j] && a[i + 1] == b[j + 1]
  {}

  lemma ByteKept(t: Texture, dst: seq<byte>, k: nat)
    requires t.format == RGB565 && t.layout == TWIDDLED && t.w == t.h == 256 && |t.data| >= BYTES && Legible(t)
    requires Twiddled(Back(t), dst) && k < BYTES
    ensures dst[k] == t.data[k]
  {
    var x, y := SlotReached(k);
    var o := Slot(x, y);
    BackAt(t, x, y);
    assert Placed(Back(t), dst, x, y);
    SlotIsPosition(t, x, y);
    SameBytes(Back(t), 512 * y + 2 * x, t.data, o);
    assert k == o || k == o + 1;
  }

  lemma PayloadKept(t: Texture, dst: seq<byte>)
    requires t.format == RGB565 && t.layout == TWIDDLED && t.w == t.h == 256 && |t.data| >= BYTES && Legible(t)
    requires Twiddled(Back(t), dst)
    ensures dst == t.data[..BYTES]
  {
    var payload := t.data[..BYTES];
    forall k: nat | k < BYTES ensures dst[k] == payload[k] {
      ByteKept(t, dst, k);
    }
  }

  /** Twiddling a parsed 256 x 256 bitmap again reproduces the payload it was decoded from. */
  lemma Retwiddled(t: Texture, dst: seq<byte>)
    requires t.format == RGB565 && t.layout == TWIDDLED && t.w == t.h == 256 && |t.data| >= BYTES && Legible(t)
    requires Twiddled(Back(t), dst)
    ensures WriteBmp(Decoded(t)).Some? && Converted(WriteBmp(Decoded(t)).value, 256, 256) == Some(Back(t))
    ensures dst == t.data[..BYTES]
  {
    Small(t.w, t.h);
    PrintParse(t);
    PayloadKept(t, dst);
  }
}
