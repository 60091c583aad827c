/** Framebuffer geometry and pixel decoding: how FB_R_SIZE and the pixel
    depth give the output size, where in video memory each output pixel comes
    from, and how each of the four framebuffer formats becomes 24-bit RGB. */
module Frame {
  import opened Bits
  import opened Vram

  /** The four framebuffer formats FB_R_CTRL.fb_depth selects. */
  datatype Format = Argb1555 | Rgb565 | Rgb888 | Krgb0888

  /** fb_depth 0..3; any other depth is the fatal "unexpected fb_depth" case (None). */
  function FormatOf(depth: nat): (r: Option<Format>)
    ensures r.None? <==> depth > 3
  {
    if depth == 0 then Some(Argb1555)
    else if depth == 1 then Some(Rgb565)
    else if depth == 2 then Some(Rgb888)
    else if depth == 3 then Some(Krgb0888)
    else None
  }

  /** Bytes of video memory per pixel: the step of the decode loop. */
  function BytesPerPixel(fmt: Format): nat
  {
    match fmt
    case Argb1555 | Rgb565 => 2
    case Rgb888 => 3
    case Krgb0888 => 4
  }

  datatype Size = Size(width: int, height: int)

  /** `pvr_framebuffer_size`. FB_R_SIZE.x + 1 counts 32-bit units of a line:
      the width is the number of whole pixels of the depth that fit in those
      bytes (an unknown depth leaves it unscaled). The height counts the
      lines of every field. */
  function FramebufferSize(x: nat, y: nat, depth: nat, interlace: bool): (s: Size)
    ensures depth <= 3 ==> var bpp := BytesPerPixel(FormatOf(depth).value);
      s.width * bpp <= (x + 1) * 4 < (s.width + 1) * bpp
    ensures depth > 3 ==> s.width == x + 1
    ensures s.height == (y + 1) * (if interlace then 2 else 1)
  {
    var w := x + 1;
    var h := y + 1;
    var width := if depth == 0 || depth == 1 then w * 2 else if depth == 2 then (w * 4) / 3 else w;
    Size(width, if interlace then h * 2 else h)
  }

  /** The scaler settings `pvr_video_size` undoes. */
  datatype Scaler = Scaler(scaleX: bool, scaleY: nat, interlace: bool)

  /** `pvr_video_size`: the game's original resolution. The width doubles
      under horizontal supersampling; the height is the framebuffer height
      times the 6.10 fixed-point scale_y, rounded down, and halved again for
      flicker-free interlacing. */
  function VideoSize(fb: Size, sc: Scaler): (r: Size)
    requires fb.height >= 0
    ensures r.width == fb.width * (if sc.scaleX then 2 else 1)
    ensures var k := if sc.interlace then 2 else 1;
      r.height * 0x400 * k <= fb.height * sc.scaleY < (r.height + 1) * 0x400 * k
  {
    var width := if sc.scaleX then fb.width * 2 else fb.width;
    var scaled := (fb.height * sc.scaleY) / 0x400;
    var height := if sc.interlace then scaled / 2 else scaled;
    VideoHeightBounds(fb.height * sc.scaleY, if sc.interlace then 2 else 1);
    Size(width, height)
  }

  lemma VideoHeightBounds(a: nat, k: nat)
    requires k == 1 || k == 2
    ensures (a / 0x400) / k * 0x400 * k <= a < ((a / 0x400) / k + 1) * 0x400 * k
  {
    DivDiv(a, 0x400, k);
    DivModSplit(a, 0x400 * k);
  }

  /** A neutral scaler (no supersampling, scale_y 1.0, no flicker-free
      interlace) gives back the framebuffer size. */
  lemma VideoSizeNeutral(fb: Size)
    requires fb.height >= 0
    ensures VideoSize(fb, Scaler(false, 0x400, false)) == fb
  {
  }

  /** Flicker-free interlacing with scale_y 0.5 cancels out: the height is
      the framebuffer height. */
  lemma VideoSizeFlickerFree(fb: Size, scaleX: bool)
    requires fb.height >= 0
    ensures VideoSize(fb, Scaler(scaleX, 0x800, true)).height == fb.height
  {
  }

  // ---------------------------------------------------------------------
  // Where the output pixels come from

  /** The registers extraction reads: FB_R_CTRL.fb_enable and fb_depth,
      FB_R_SIZE.x, y and mod, SPG_CONTROL.interlace, FB_R_SOF1/2 and
      SPG_STATUS.fieldnum. */
  datatype FrameConfig = FrameConfig(
    enable: bool, depth: nat, x: nat, y: nat, mod: nat,
    interlace: bool, sof1: u32, sof2: u32, field: nat)

  function NumFields(c: FrameConfig): nat
  {
    if c.interlace then 2 else 1
  }

  /** The start-of-field address of field `n`. */
  function FieldStart(c: FrameConfig, n: nat): u32
    requires n < 2
  {
    if n == 0 then c.sof1 else c.sof2
  }

  /** `x_size`: the bytes of one line of one field. */
  function LineBytes(c: FrameConfig): nat
  {
    (c.x + 1) * 4
  }

  /** `line_mod`: the bytes skipped between the lines of one field. */
  function LineMod(c: FrameConfig): int
  {
    c.mod * 4 - 4
  }

  /** Iterations of `for (x = 0; x < x_size; x += bpp)`: x_size / bpp rounded up. */
  function Steps(xSize: nat, fmt: Format): nat
  {
    var bpp := BytesPerPixel(fmt);
    (xSize + bpp - 1) / bpp
  }

  /** Pixels decoded from one line of one field. */
  function PixelsPerLine(c: FrameConfig, fmt: Format): (r: nat)
    ensures r > 0
  {
    Steps(LineBytes(c), fmt)
  }

  /** How far a field pointer moves over one line: bpp per pixel, then line_mod. */
  function RowAdvance(c: FrameConfig, fmt: Format): int
  {
    PixelsPerLine(c, fmt) * BytesPerPixel(fmt) + LineMod(c)
  }

  /** Pixels written: y_size lines, each field once per line. */
  function PixelCount(c: FrameConfig, fmt: Format): nat
  {
    (c.y + 1) * NumFields(c) * PixelsPerLine(c, fmt)
  }

  /** The 32-bit path address output pixel `p` is read from. Output row
      `p / PixelsPerLine` is line `row / NumFields` of field
      `row % NumFields`, so interlaced rows alternate between the fields. */
  function PixelSource(c: FrameConfig, fmt: Format, p: nat): u32
  {
    var pr, nf := PixelsPerLine(c, fmt), NumFields(c);
    var row := p / pr;
    Add32(FieldStart(c, row % nf), (row / nf) * RowAdvance(c, fmt) + (p % pr) * BytesPerPixel(fmt))
  }

  /** The little-endian 16-bit pixel at byte `i`. */
  function Pixel16(v: seq<u8>, i: nat): nat
    requires i + 2 <= |v|
  {
    v[i] as int + 0x100 * v[i + 1] as int
  }

  /** One pixel of the format as R, G, B bytes. The 16-bit formats widen each
      channel by shifting it to the top of its byte; the 24- and 32-bit
      formats store B, G, R and drop the fourth byte. */
  function DecodePixel(fmt: Format, v: seq<u8>, i: nat): (px: seq<u8>)
    requires i + 3 <= |v|
    ensures |px| == 3
  {
    match fmt
    case Argb1555 =>
      var rgb := Pixel16(v, i);
      [Get(rgb, BitField(10, 5)) * 8, Get(rgb, BitField(5, 5)) * 8, Get(rgb, BitField(0, 5)) * 8]
    case Rgb565 =>
      var rgb := Pixel16(v, i);
      Pow2Values();
      [Get(rgb, BitField(11, 5)) * 8, Get(rgb, BitField(5, 6)) * 4, Get(rgb, BitField(0, 5)) * 8]
    case Rgb888 | Krgb0888 =>
      [v[i + 2], v[i + 1], v[i]]
  }

  /** Output pixel `p` of the frame. */
  function PixelAt(c: FrameConfig, fmt: Format, v: seq<u8>, p: nat): seq<u8>
    requires |v| == VRAM_STORE
  {
    DecodePixel(fmt, v, Vram64(PixelSource(c, fmt, p)))
  }

  /** `out` holds the first `count` decoded pixels, three bytes each, and
      keeps the rest of `before`. */
  ghost predicate Decoded(out: seq<u8>, before: seq<u8>, c: FrameConfig, fmt: Format, v: seq<u8>, count: nat)
    requires |v| == VRAM_STORE
  {
    && |out| == |before|
    && 3 * count <= |out|
    && (forall p :: 0 <= p < count ==> out[3 * p .. 3 * p + 3] == PixelAt(c, fmt, v, p))
    && (forall b :: 3 * count <= b < |out| ==> out[b] == before[b])
  }

  /** `out` holds the whole decoded frame. */
  ghost predicate FrameDecoded(out: seq<u8>, before: seq<u8>, c: FrameConfig, fmt: Format, v: seq<u8>)
    requires |v| == VRAM_STORE
  {
    Decoded(out, before, c, fmt, v, PixelCount(c, fmt))
  }

  /** Decoding `n` more pixels right after the first `count` extends the prefix. */
  lemma DecodedExtend(out0: seq<u8>, out1: seq<u8>, before: seq<u8>, c: FrameConfig, fmt: Format, v: seq<u8>, count: nat, n: nat)
    requires |v| == VRAM_STORE
    requires Decoded(out0, before, c, fmt, v, count)
    requires |out1| == |out0| && 3 * (count + n) <= |out1|
    requires forall b :: 0 <= b < |out1| && !(3 * count <= b < 3 * (count + n)) ==> out1[b] == out0[b]
    requires forall k :: 0 <= k < n ==> out1[3 * count + 3 * k .. 3 * count + 3 * k + 3] == PixelAt(c, fmt, v, count + k)
    ensures Decoded(out1, before, c, fmt, v, count + n)
  {
    forall p | 0 <= p < count + n
      ensures out1[3 * p .. 3 * p + 3] == PixelAt(c, fmt, v, p)
    {
      if p < count {
        assert out1[3 * p .. 3 * p + 3] == out0[3 * p .. 3 * p + 3];
      } else {
        var k := p - count;
        assert 3 * p == 3 * count + 3 * k;
      }
    }
  }

  /** `out` holds, from byte `dst`, the first `k` pixels of a line read
      from `src` on, and keeps every other byte of `orig`. */
  ghost predicate LineDecoded(out: seq<u8>, orig: seq<u8>, fmt: Format, v: seq<u8>, src: u32, dst: nat, k: nat)
    requires |v| == VRAM_STORE
  {
    && |out| == |orig|
    && dst + 3 * k <= |out|
    && (forall q :: 0 <= q < k ==>
          out[dst + 3 * q .. dst + 3 * q + 3] == DecodePixel(fmt, v, Vram64(Add32(src, q * BytesPerPixel(fmt)))))
    && (forall b :: 0 <= b < |out| && !(dst <= b < dst + 3 * k) ==> out[b] == orig[b])
  }

  /** Writing the next pixel's three bytes extends the line by one pixel. */
  lemma LineDecodedStep(out: seq<u8>, orig: seq<u8>, fmt: Format, v: seq<u8>, src: u32, dst: nat, k: nat)
    requires |v| == VRAM_STORE
    requires LineDecoded(out, orig, fmt, v, src, dst, k) && dst + 3 * k + 3 <= |out|
    ensures var px := DecodePixel(fmt, v, Vram64(Add32(src, k * BytesPerPixel(fmt))));
      var d := dst + 3 * k;
      LineDecoded(out[d := px[0]][d + 1 := px[1]][d + 2 := px[2]], orig, fmt, v, src, dst, k + 1)
  {
    var px := DecodePixel(fmt, v, Vram64(Add32(src, k * BytesPerPixel(fmt))));
    var d := dst + 3 * k;
    ThreeBytes(out, d, px);
    LinePrefixKept(out, fmt, v, src, dst, k, px);
  }

  /** The three-byte write after the first `k` pixels leaves them in place. */
  lemma LinePrefixKept(out: seq<u8>, fmt: Format, v: seq<u8>, src: u32, dst: nat, k: nat, px: seq<u8>)
    requires |v| == VRAM_STORE && |px| == 3 && dst + 3 * k + 3 <= |out|
    requires forall q :: 0 <= q < k ==>
      out[dst + 3 * q .. dst + 3 * q + 3] == DecodePixel(fmt, v, Vram64(Add32(src, q * BytesPerPixel(fmt))))
    ensures var d := dst + 3 * k;
      forall q :: 0 <= q < k ==>
        out[d := px[0]][d + 1 := px[1]][d + 2 := px[2]][dst + 3 * q .. dst + 3 * q + 3]
          == DecodePixel(fmt, v, Vram64(Add32(src, q * BytesPerPixel(fmt))))
  {
    var d := dst + 3 * k;
    forall q | 0 <= q < k
      ensures out[d := px[0]][d + 1 := px[1]][d + 2 := px[2]][dst + 3 * q .. dst + 3 * q + 3]
        == DecodePixel(fmt, v, Vram64(Add32(src, q * BytesPerPixel(fmt))))
    {
      ThreeBytesElsewhere(out, d, px, dst + 3 * q);
    }
  }

  lemma ThreeBytes(out: seq<u8>, d: nat, px: seq<u8>)
    requires d + 3 <= |out| && |px| == 3
    ensures var out1 := out[d := px[0]][d + 1 := px[1]][d + 2 := px[2]];
      && out1[d .. d + 3] == px
      && forall b :: 0 <= b < |out| && !(d <= b < d + 3) ==> out1[b] == out[b]
  {
  }

  lemma ThreeBytesElsewhere(out: seq<u8>, d: nat, px: seq<u8>, e: nat)
    requires d + 3 <= |out| && |px| == 3 && e + 3 <= d
    ensures out[d := px[0]][d + 1 := px[1]][d + 2 := px[2]][e .. e + 3] == out[e .. e + 3]
  {
  }

  /** Decoding the line of field `n` on row `y` extends the decoded prefix
      by one line of pixels. */
  lemma RowDecoded(out0: seq<u8>, out1: seq<u8>, before: seq<u8>, c: FrameConfig, fmt: Format, v: seq<u8>,
                   y: nat, n: nat, done: nat)
    requires |v| == VRAM_STORE && n < NumFields(c)
    requires done == (y * NumFields(c) + n) * PixelsPerLine(c, fmt)
    requires Decoded(out0, before, c, fmt, v, done)
    requires LineDecoded(out1, out0, fmt, v, Add32(FieldStart(c, n), y * RowAdvance(c, fmt)), 3 * done, PixelsPerLine(c, fmt))
    ensures Decoded(out1, before, c, fmt, v, done + PixelsPerLine(c, fmt))
  {
    LineIsRow(out0, out1, c, fmt, v, y, n, done);
    DecodedExtend(out0, out1, before, c, fmt, v, done, PixelsPerLine(c, fmt));
  }

  /** The pixels of that line are the frame's pixels `done` and on. */
  lemma LineIsRow(out0: seq<u8>, out1: seq<u8>, c: FrameConfig, fmt: Format, v: seq<u8>, y: nat, n: nat, done: nat)
    requires |v| == VRAM_STORE && n < NumFields(c)
    requires done == (y * NumFields(c) + n) * PixelsPerLine(c, fmt)
    requires LineDecoded(out1, out0, fmt, v, Add32(FieldStart(c, n), y * RowAdvance(c, fmt)), 3 * done, PixelsPerLine(c, fmt))
    ensures forall k :: 0 <= k < PixelsPerLine(c, fmt) ==>
      out1[3 * done + 3 * k .. 3 * done + 3 * k + 3] == PixelAt(c, fmt, v, done + k)
  {
    forall k | 0 <= k < PixelsPerLine(c, fmt)
      ensures out1[3 * done + 3 * k .. 3 * done + 3 * k + 3] == PixelAt(c, fmt, v, done + k)
    {
      PixelSourceAt(c, fmt, y, n, k, done + k);
    }
  }

  /** The rows up to line `y`, field `n` fit inside the frame. */
  lemma RowFits(c: FrameConfig, fmt: Format, y: nat, n: nat)
    requires y <= c.y && n < NumFields(c)
    ensures (y * NumFields(c) + n) * PixelsPerLine(c, fmt) + PixelsPerLine(c, fmt) <= PixelCount(c, fmt)
  {
    var nf, pr := NumFields(c), PixelsPerLine(c, fmt);
    var row := y * nf + n;
    MulSucc(y, nf);
    MulLe(y + 1, c.y + 1, nf);
    assert row + 1 <= (c.y + 1) * nf;
    MulSucc(row, pr);
    MulLe(row + 1, (c.y + 1) * nf, pr);
  }

  // ---------------------------------------------------------------------
  // Properties of the geometry

  /** The decode loop's test `x < x_size`, with x = i * bpp, holds exactly
      for the first Steps(x_size) iterations. */
  lemma StepsExact(xSize: nat, fmt: Format, i: nat)
    ensures i * BytesPerPixel(fmt) < xSize <==> i < Steps(xSize, fmt)
  {
    var bpp := BytesPerPixel(fmt);
    var pr := Steps(xSize, fmt);
    DivModSplit(xSize + bpp - 1, bpp);
    if i < pr {
      MulLe(i, pr - 1, bpp);
    } else {
      MulLe(pr, i, bpp);
    }
  }

  /** One more turn of the pixel loop: the loop test admits pixel `k`, and
      the source pointer moves on by one pixel. */
  lemma PixelAdvance(xSize: nat, fmt: Format, src: u32, k: nat)
    requires k * BytesPerPixel(fmt) < xSize
    ensures k < Steps(xSize, fmt)
    ensures (k + 1) * BytesPerPixel(fmt) == k * BytesPerPixel(fmt) + BytesPerPixel(fmt)
    ensures Add32(Add32(src, k * BytesPerPixel(fmt)), BytesPerPixel(fmt)) == Add32(src, (k + 1) * BytesPerPixel(fmt))
  {
    StepsExact(xSize, fmt, k);
    Add32Add32(src, k * BytesPerPixel(fmt), BytesPerPixel(fmt));
    MulSucc(k, BytesPerPixel(fmt));
  }

  /** Splits a pixel index into (line, field, position in line). */
  lemma PixelIndex(y: nat, n: nat, i: nat, nf: nat, pr: nat)
    requires n < nf && i < pr
    ensures ((y * nf + n) * pr + i) / pr == y * nf + n
    ensures ((y * nf + n) * pr + i) % pr == i
    ensures (y * nf + n) / nf == y && (y * nf + n) % nf == n
  {
    DivModUnique(y * nf + n, i, pr);
    DivModUnique(y, n, nf);
  }

  /** Pixel `i` of line `y` of field `n` comes from the field's start plus
      `y` row advances plus `i` pixel steps. */
  lemma PixelSourceAt(c: FrameConfig, fmt: Format, y: nat, n: nat, i: nat, p: nat)
    requires n < NumFields(c) && i < PixelsPerLine(c, fmt)
    requires p == (y * NumFields(c) + n) * PixelsPerLine(c, fmt) + i
    ensures PixelSource(c, fmt, p) == Add32(Add32(FieldStart(c, n), y * RowAdvance(c, fmt)), i * BytesPerPixel(fmt))
  {
    PixelIndex(y, n, i, NumFields(c), PixelsPerLine(c, fmt));
    Add32Add32(FieldStart(c, n), y * RowAdvance(c, fmt), i * BytesPerPixel(fmt));
  }

  /** Within a line a field pointer moves by bytes-per-pixel. */
  lemma PixelSourceNext(c: FrameConfig, fmt: Format, y: nat, n: nat, i: nat, p: nat)
    requires n < NumFields(c) && i + 1 < PixelsPerLine(c, fmt)
    requires p == (y * NumFields(c) + n) * PixelsPerLine(c, fmt) + i
    ensures PixelSource(c, fmt, p + 1) == Add32(PixelSource(c, fmt, p), BytesPerPixel(fmt))
  {
    var start := Add32(FieldStart(c, n), y * RowAdvance(c, fmt));
    PixelSourceAt(c, fmt, y, n, i, p);
    PixelSourceAt(c, fmt, y, n, i + 1, p + 1);
    Add32Add32(start, i * BytesPerPixel(fmt), BytesPerPixel(fmt));
  }

  /** From the last pixel of a line to the first pixel of the same field's
      next line (the other field's line lies between them when interlaced)
      the pointer moves by bytes-per-pixel plus line_mod. */
  lemma PixelSourceNextLine(c: FrameConfig, fmt: Format, y: nat, n: nat, p: nat, q: nat)
    requires n < NumFields(c)
    requires p == (y * NumFields(c) + n) * PixelsPerLine(c, fmt) + (PixelsPerLine(c, fmt) - 1)
    requires q == ((y + 1) * NumFields(c) + n) * PixelsPerLine(c, fmt) + 0
    ensures PixelSource(c, fmt, q) == Add32(PixelSource(c, fmt, p), BytesPerPixel(fmt) + LineMod(c))
  {
    var pr, bpp, adv := PixelsPerLine(c, fmt), BytesPerPixel(fmt), RowAdvance(c, fmt);
    PixelSourceAt(c, fmt, y, n, pr - 1, p);
    PixelSourceAt(c, fmt, y + 1, n, 0, q);
    RowStep(y, adv, pr, bpp, LineMod(c));
    Add32Chain(FieldStart(c, n), y * adv, (pr - 1) * bpp, bpp + LineMod(c), (y + 1) * adv, 0 * bpp);
  }

  /** After one line, the field pointer plus line_mod is the start of the
      field's next line. */
  lemma NextRowStart(c: FrameConfig, fmt: Format, y: nat, n: nat)
    requires n < 2
    ensures var adv, pr, bpp := RowAdvance(c, fmt), PixelsPerLine(c, fmt), BytesPerPixel(fmt);
      Add32(Add32(Add32(FieldStart(c, n), y * adv), pr * bpp), LineMod(c)) == Add32(FieldStart(c, n), (y + 1) * adv)
  {
    var a, adv, line := FieldStart(c, n), RowAdvance(c, fmt), PixelsPerLine(c, fmt) * BytesPerPixel(fmt);
    var here := y * adv;
    MulSucc(y, adv);
    Add32Add32(a, here, line);
    Add32Add32(a, here + line, LineMod(c));
    assert here + line + LineMod(c) == (y + 1) * adv;
  }

  lemma Add32Chain(a: u32, d: int, e: int, f: int, g: int, h: int)
    requires d + e + f == g + h
    ensures Add32(Add32(a, g), h) == Add32(Add32(Add32(a, d), e), f)
  {
    Add32Add32(a, g, h);
    Add32Add32(a, d, e);
    Add32Add32(a, d + e, f);
  }

  lemma RowStep(y: int, adv: int, pr: int, bpp: int, lm: int)
    requires adv == pr * bpp + lm
    ensures y * adv + (pr - 1) * bpp + (bpp + lm) == (y + 1) * adv + 0 * bpp
  {
  }

  /** For the 16-bit and 32-bit formats the loop writes exactly the
      width * height pixels the size function reports; for 24-bit it does
      so only when FB_R_SIZE.x + 1 is a multiple of 3, otherwise each line
      carries one pixel more than the reported width. */
  lemma PixelCountMatchesSize(c: FrameConfig, fmt: Format)
    requires FormatOf(c.depth) == Some(fmt)
    ensures var s := FramebufferSize(c.x, c.y, c.depth, c.interlace);
      && (fmt != Rgb888 ==> PixelCount(c, fmt) == s.width * s.height)
      && (fmt == Rgb888 ==> (PixelCount(c, fmt) == s.width * s.height <==> (c.x + 1) % 3 == 0))
  {
    var s := FramebufferSize(c.x, c.y, c.depth, c.interlace);
    var pr := PixelsPerLine(c, fmt);
    var lines := (c.y + 1) * NumFields(c);
    assert s.height == lines;
    assert PixelCount(c, fmt) == pr * lines;
    LineWidth(c, fmt);
    if fmt == Rgb888 {
      MulCancel(pr, s.width, lines);
    }
  }

  /** Pixels per line against the reported width, format by format. */
  lemma LineWidth(c: FrameConfig, fmt: Format)
    requires FormatOf(c.depth) == Some(fmt)
    ensures var s := FramebufferSize(c.x, c.y, c.depth, c.interlace);
      && (fmt != Rgb888 ==> PixelsPerLine(c, fmt) == s.width)
      && (fmt == Rgb888 ==> (PixelsPerLine(c, fmt) == s.width <==> (c.x + 1) % 3 == 0))
      && PixelsPerLine(c, fmt) <= s.width + 1
  {
    var w := c.x + 1;
    match fmt
    case Argb1555 | Rgb565 =>
      DivModUnique(w * 2, 1, 2);
    case Krgb0888 =>
      DivModUnique(w, 3, 4);
    case Rgb888 =>
      Thirds(w);
  }

  /** ceil(4w / 3) == floor(4w / 3) exactly when 3 divides w, and they never
      differ by more than one. */
  lemma Thirds(w: nat)
    ensures (w * 4 + 2) / 3 == (w * 4) / 3 <==> w % 3 == 0
    ensures (w * 4 + 2) / 3 <= (w * 4) / 3 + 1
  {
    var k, r := w / 3, w % 3;
    DivModSplit(w, 3);
    assert w * 4 == (4 * k + r) * 3 + r;
    DivModUnique(4 * k + r, r, 3);
    if r == 0 {
      DivModUnique(4 * k, 2, 3);
    } else if r == 1 {
      DivModUnique(4 * k + 2, 0, 3);
    } else {
      DivModUnique(4 * k + 3, 1, 3);
    }
  }

  lemma MulCancel(a: nat, b: nat, k: nat)
    requires k > 0
    ensures a * k == b * k <==> a == b
  {
    if a < b {
      MulLe(a + 1, b, k);
    } else if b < a {
      MulLe(b + 1, a, k);
    }
  }

  /** The largest frame any 10-bit FB_R_SIZE can ask for: two fields of
      1024 lines of 2048 16-bit pixels, three bytes each. */
  const FB_CAPACITY: nat := 2 * 1024 * 2048 * 3

  lemma FrameFits(c: FrameConfig, fmt: Format)
    requires c.x < 0x400 && c.y < 0x400
    ensures 3 * PixelCount(c, fmt) <= FB_CAPACITY
  {
    var bpp := BytesPerPixel(fmt);
    var pr := PixelsPerLine(c, fmt);
    DivModSplit(LineBytes(c) + bpp - 1, bpp);
    if pr > 2048 {
      MulLe(2049, pr, bpp);
    }
    MulLe(c.y + 1, 1024, NumFields(c));
    MulLe((c.y + 1) * NumFields(c), 2048, pr);
    MulLe(pr, 2048, 2048);
  }

  // ---------------------------------------------------------------------
  // Properties of the decoding

  /** The 5-5-5 layout of the low 15 bits of a 16-bit pixel. */
  lemma Split555(w: nat)
    ensures w % 0x8000 == Get(w, BitField(10, 5)) * 0x400 + Get(w, BitField(5, 5)) * 0x20 + Get(w, BitField(0, 5))
  {
    DivDiv(w, 0x20, 0x20);
    DivDiv(w, 0x400, 0x20);
    DivModSplit(w, 0x20);
    DivModSplit(w / 0x20, 0x20);
    DivModSplit(w / 0x400, 0x20);
    var hi := w / 0x8000;
    assert w == hi * 0x8000 + (Get(w, BitField(10, 5)) * 0x400 + Get(w, BitField(5, 5)) * 0x20 + Get(w, BitField(0, 5)));
    DivModUnique(hi, Get(w, BitField(10, 5)) * 0x400 + Get(w, BitField(5, 5)) * 0x20 + Get(w, BitField(0, 5)), 0x8000);
  }

  /** The 5-6-5 layout of a 16-bit pixel. */
  lemma Split565(w: nat)
    requires w < 0x10000
    ensures w == Get(w, BitField(11, 5)) * 0x800 + Get(w, BitField(5, 6)) * 0x20 + Get(w, BitField(0, 5))
  {
    Pow2Values();
    DivDiv(w, 0x20, 0x40);
    DivModSplit(w, 0x20);
    DivModSplit(w / 0x20, 0x40);
    DivModSplit(w / 0x800, 0x20);
  }

  /** ARGB1555 decoding loses only the top (alpha) bit: two pixels decode
      alike exactly when their low 15 bits agree. */
  lemma Argb1555Faithful(v: seq<u8>, i: nat, u: seq<u8>, j: nat)
    requires i + 3 <= |v| && j + 3 <= |u|
    ensures DecodePixel(Argb1555, v, i) == DecodePixel(Argb1555, u, j)
      <==> Pixel16(v, i) % 0x8000 == Pixel16(u, j) % 0x8000
  {
    var w, x := Pixel16(v, i), Pixel16(u, j);
    Split555(w);
    Split555(x);
    if w % 0x8000 == x % 0x8000 {
      DigitsUnique(Get(w, BitField(10, 5)), Get(w, BitField(5, 5)), Get(w, BitField(0, 5)),
        Get(x, BitField(10, 5)), Get(x, BitField(5, 5)), Get(x, BitField(0, 5)), 0x20, 0x20);
    }
  }

  /** RGB565 decoding loses nothing: two pixels decode alike exactly when
      they are the same 16-bit value. */
  lemma Rgb565Faithful(v: seq<u8>, i: nat, u: seq<u8>, j: nat)
    requires i + 3 <= |v| && j + 3 <= |u|
    ensures DecodePixel(Rgb565, v, i) == DecodePixel(Rgb565, u, j) <==> Pixel16(v, i) == Pixel16(u, j)
  {
    var w, x := Pixel16(v, i), Pixel16(u, j);
    Split565(w);
    Split565(x);
    if w == x {
      Pow2Values();
      DigitsUnique(Get(w, BitField(11, 5)), Get(w, BitField(5, 6)), Get(w, BitField(0, 5)),
        Get(x, BitField(11, 5)), Get(x, BitField(5, 6)), Get(x, BitField(0, 5)), 0x40, 0x20);
    }
  }

  /** The 16-bit formats widen each channel by a left shift, so the low bits
      of every output byte are zero: three for a 5-bit channel, two for the
      6-bit green of RGB565. */
  lemma WidenedChannels(fmt: Format, v: seq<u8>, i: nat)
    requires i + 3 <= |v|
    ensures fmt == Argb1555 ==> var px := DecodePixel(fmt, v, i);
      px[0] % 8 == 0 && px[1] % 8 == 0 && px[2] % 8 == 0
    ensures fmt == Rgb565 ==> var px := DecodePixel(fmt, v, i);
      px[0] % 8 == 0 && px[1] % 4 == 0 && px[2] % 8 == 0
  {
    var w := Pixel16(v, i);
    if fmt == Argb1555 {
      var r, g, b := Get(w, BitField(10, 5)), Get(w, BitField(5, 5)), Get(w, BitField(0, 5));
      assert DecodePixel(fmt, v, i) == [r * 8, g * 8, b * 8];
      DivModUnique(r, 0, 8);
      DivModUnique(g, 0, 8);
      DivModUnique(b, 0, 8);
    } else if fmt == Rgb565 {
      var r, g, b := Get(w, BitField(11, 5)), Get(w, BitField(5, 6)), Get(w, BitField(0, 5));
      assert DecodePixel(fmt, v, i) == [r * 8, g * 4, b * 8];
      DivModUnique(r, 0, 8);
      DivModUnique(g, 0, 4);
      DivModUnique(b, 0, 8);
    }
  }

  /** Pure red (0xF800) and pure green (0x07E0) in RGB565 come out at the
      top of their channels: (248, 0, 0) and (0, 252, 0). */
  lemma Rgb565Primaries(v: seq<u8>, i: nat)
    requires i + 3 <= |v|
    ensures Pixel16(v, i) == 0xF800 ==> DecodePixel(Rgb565, v, i) == [248, 0, 0]
    ensures Pixel16(v, i) == 0x07E0 ==> DecodePixel(Rgb565, v, i) == [0, 252, 0]
  {
    Pow2Add(5, 0);
    Pow2Add(5, 1);
    Pow2Add(11, 0);
    assert Pow2(5) == 0x20 && Pow2(6) == 0x40 && Pow2(11) == 0x800;
    assert Get(0xF800, BitField(11, 5)) == 31 && Get(0xF800, BitField(5, 6)) == 0 && Get(0xF800, BitField(0, 5)) == 0;
    assert Get(0x07E0, BitField(11, 5)) == 0 && Get(0x07E0, BitField(5, 6)) == 63 && Get(0x07E0, BitField(0, 5)) == 0;
  }

  /** Three-digit numerals in the mixed base (`m`, `n`) read back uniquely. */
  lemma DigitsUnique(a: nat, b: nat, c: nat, a2: nat, b2: nat, c2: nat, m: nat, n: nat)
    requires b < m && c < n && b2 < m && c2 < n
    requires (a * m + b) * n + c == (a2 * m + b2) * n + c2
    ensures a == a2 && b == b2 && c == c2
  {
    DivModUnique(a * m + b, c, n);
    DivModUnique(a2 * m + b2, c2, n);
    DivModUnique(a, b, m);
    DivModUnique(a2, b2, m);
  }

  /** The 24- and 32-bit formats copy bytes 2, 1, 0 of the pixel, and the
      32-bit format's fourth byte never reaches the output. */
  lemma PackedFormatsCopy(v: seq<u8>, i: nat, k: u8)
    requires i + 4 <= |v|
    ensures DecodePixel(Rgb888, v, i) == DecodePixel(Krgb0888, v, i) == [v[i + 2], v[i + 1], v[i]]
    ensures DecodePixel(Krgb0888, v[i + 3 := k], i) == DecodePixel(Krgb0888, v, i)
  {
  }
}
