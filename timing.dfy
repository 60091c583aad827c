/** The sync-pulse generator's arithmetic: the line clock, the scanline
    counter, the vertical-sync level and the horizontal-blank interrupt rule. */
module Timing {
  import opened Bits

  const BASE_PIXEL_CLOCK: nat := 13500000

  /** The pixel clock: 13.5 MHz, doubled when FB_R_CTRL.vclk_div is set. */
  function PixelClock(vclkDiv: bool): (r: nat)
    ensures r > 0 && r % BASE_PIXEL_CLOCK == 0
    ensures vclkDiv <==> r > BASE_PIXEL_CLOCK
  {
    if vclkDiv then BASE_PIXEL_CLOCK * 2 else BASE_PIXEL_CLOCK
  }

  /** Scanlines per second: the pixel clock over the hcount + 1 pixel clocks
      of a line, doubled when interlaced. The result is the whole number of
      lines that fit, counted in steps of the interlace factor. */
  function LineClock(vclkDiv: bool, hcount: nat, interlace: bool): (r: nat)
    ensures var s := if interlace then 2 else 1;
      r % s == 0 && r * (hcount + 1) <= PixelClock(vclkDiv) * s < (r + s) * (hcount + 1)
  {
    var s := if interlace then 2 else 1;
    LineClockBounds(PixelClock(vclkDiv), hcount + 1, s);
    (PixelClock(vclkDiv) / (hcount + 1)) * s
  }

  /** The bounds of `LineClock` pin the rate: a rate that is a multiple of
      the interlace factor and meets them is the line clock. */
  lemma LineClockRate(vclkDiv: bool, hcount: nat, interlace: bool, r: nat)
    requires var s := if interlace then 2 else 1;
      r % s == 0 && r * (hcount + 1) <= PixelClock(vclkDiv) * s < (r + s) * (hcount + 1)
    ensures r == LineClock(vclkDiv, hcount, interlace)
  {
    var s, d, p := if interlace then 2 else 1, hcount + 1, PixelClock(vclkDiv);
    var q := r / s;
    DivModSplit(r, s);
    assert (q * d) * s <= p * s < ((q + 1) * d) * s;
    ScaledBounds(q * d, p, (q + 1) * d, s);
    DivModUnique(q, p - q * d, d);
  }

  /** Dividing a chain of inequalities by a positive factor. */
  lemma ScaledBounds(a: int, b: int, c: int, s: int)
    requires s > 0 && a * s <= b * s < c * s
    ensures a <= b < c
  {
    assert (b - a) * s >= 0 && (c - b) * s > 0;
    MulPos(a - b, s);
    MulPos(b - c + 1, s);
    assert !(a - b > 0) by { assert (a - b) * s == -((b - a) * s); }
    assert !(b - c + 1 > 0) by { assert (b - c + 1) * s == s - (c - b) * s; }
  }

  /** The whole lines of `d` clocks in `p`, counted in steps of `s`. */
  lemma LineClockBounds(p: nat, d: nat, s: nat)
    requires d > 0 && s > 0
    ensures var r := (p / d) * s;
      r % s == 0 && r * d <= p * s < (r + s) * d
  {
    var r := (p / d) * s;
    DivModSplit(p, d);
    MulLe(p % d, d - 1, s);
    assert p * s == (p / d) * s * d + (p % d) * s;
    assert (r + s) * d == r * d + s * d;
    DivModUnique(p / d, 0, s);
  }

  /** A 10-bit hcount always leaves a positive line rate, so the timer
      period HZ_TO_NANO(line_clock) is defined. */
  lemma LineClockPositive(vclkDiv: bool, hcount: nat, interlace: bool)
    requires hcount < 0x400
    ensures LineClock(vclkDiv, hcount, interlace) > 0
  {
    DivModSplit(PixelClock(vclkDiv), hcount + 1);
  }

  /** The next scanline: `(current_line + 1) % (vcount + 1)`. */
  function NextLine(line: nat, vcount: nat): (r: nat)
    ensures r <= vcount
    ensures line < vcount ==> r == line + 1
    ensures line == vcount ==> r == 0
  {
    (line + 1) % (vcount + 1)
  }

  /** The SPG_STATUS.vsync level on `line`: inside [vbstart, vbend), or,
      when the interval wraps past the end of the frame, outside [vbend, vbstart). */
  predicate VsyncLevel(line: nat, vbstart: nat, vbend: nat)
  {
    if vbstart < vbend then vbstart <= line < vbend
    else line >= vbstart || line < vbend
  }

  /** With vbstart == vbend the interval covers every line. */
  lemma VsyncAlwaysWhenEqual(line: nat, vb: nat)
    ensures VsyncLevel(line, vb, vb)
  {
  }

  /** A wrapped interval is exactly the complement of [vbend, vbstart). */
  lemma VsyncWrapped(line: nat, vbstart: nat, vbend: nat)
    requires vbend < vbstart
    ensures VsyncLevel(line, vbstart, vbend) <==> !(vbend <= line < vbstart)
  {
  }

  /** Over a frame of vcount + 1 lines with vbstart and vbend distinct and on
      screen, the level rises exactly on line vbstart and falls exactly on
      line vbend: one vblank-in and one vblank-out per frame. */
  lemma OneEdgeEachPerFrame(prev: nat, vcount: nat, vbstart: nat, vbend: nat)
    requires prev <= vcount && vbstart <= vcount && vbend <= vcount && vbstart != vbend
    ensures var line := NextLine(prev, vcount);
      && (VsyncLevel(line, vbstart, vbend) && !VsyncLevel(prev, vbstart, vbend) <==> line == vbstart)
      && (!VsyncLevel(line, vbstart, vbend) && VsyncLevel(prev, vbstart, vbend) <==> line == vbend)
  {
  }

  /** The horizontal-blank interrupt: mode 0 raises on the comparison line,
      mode 2 on every line; any other mode is unsupported (None). */
  function HblankRaises(mode: nat, line: nat, lineCompVal: nat): (r: Option<bool>)
    ensures r.None? <==> mode != 0 && mode != 2
    ensures r == Some(true) <==> mode == 2 || (mode == 0 && line == lineCompVal)
  {
    if mode == 0 then Some(line == lineCompVal)
    else if mode == 2 then Some(true)
    else None
  }
}
