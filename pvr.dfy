/** The PowerVR2 device: its register file with the write hooks, video
    memory behind the 32- and 64-bit access paths, the sync-pulse generator
    that ticks once per scanline, and the framebuffer copy-out at vertical
    blank. Calls the device makes into the rest of the console (the tile
    accelerator, the interrupt controller, the video output) are recorded,
    in order, in a ghost event log. */
module PowerVR {
  import opened Bits
  import opened Vram
  import opened Regs
  import opened Timing
  import opened Frame
  import opened Cookie

  /** The three interrupts the device raises. */
  datatype Irq = PCHIINT | PCVIINT | PCVOINT

  /** An outward call: a tile-accelerator command, an interrupt, a frame
      handed to the video output, or a vertical-blank edge. */
  datatype Event =
    | TaSoftReset
    | TaStartRender
    | TaListInit
    | TaListCont
    | TaYuvInit
    | RaiseInterrupt(irq: Irq)
    | PushPixels(width: int, height: int)
    | DcVblankIn(blankVideo: bool)
    | DcVblankOut

  /** A scanline tick either completes or hits a fatal error (which stops
      the emulator). */
  datatype Outcome = Ok | Fatal

  /** The framebuffer read configuration held in the registers. */
  function ConfigOf(regs: seq<u32>): (c: FrameConfig)
    requires |regs| == NUM_REGS
    ensures c.depth < 4 && c.x < 0x400 && c.y < 0x400 && c.mod < 0x400 && c.field < 2
  {
    Pow2Values();
    FrameConfig(
      Flag(regs, FB_R_CTRL, FB_ENABLE), Field(regs, FB_R_CTRL, FB_DEPTH),
      Field(regs, FB_R_SIZE, FB_X), Field(regs, FB_R_SIZE, FB_Y), Field(regs, FB_R_SIZE, FB_MOD),
      Flag(regs, SPG_CONTROL, INTERLACE), regs[FB_R_SOF1], regs[FB_R_SOF2],
      Field(regs, SPG_STATUS, FIELDNUM))
  }

  /** `pvr_video_size`, read from the registers: the framebuffer size of
      FB_R_SIZE, SPG_CONTROL and fb_depth, scaled by SCALER_CTL. The width
      doubles under scale_x, and a neutral scaler leaves the size alone. */
  function VideoSizeOf(regs: seq<u32>): (r: Size)
    requires |regs| == NUM_REGS
    ensures var c := ConfigOf(regs);
      var fb := FramebufferSize(c.x, c.y, c.depth, c.interlace);
      && r.width == fb.width * (if Flag(regs, SCALER_CTL, SCALE_X) then 2 else 1)
      && ((!Flag(regs, SCALER_CTL, SCALE_X) && Field(regs, SCALER_CTL, SCALE_Y) == 0x400
           && !Flag(regs, SCALER_CTL, SCALER_INTERLACE)) ==> r == fb)
  {
    var c := ConfigOf(regs);
    VideoSizeNeutral(FramebufferSize(c.x, c.y, c.depth, c.interlace));
    VideoSize(FramebufferSize(c.x, c.y, c.depth, c.interlace),
      Scaler(Flag(regs, SCALER_CTL, SCALE_X), Field(regs, SCALER_CTL, SCALE_Y), Flag(regs, SCALER_CTL, SCALER_INTERLACE)))
  }

  /** The line rate the registers ask for. */
  function LineClockOf(regs: seq<u32>): nat
    requires |regs| == NUM_REGS
  {
    LineClock(Flag(regs, FB_R_CTRL, VCLK_DIV), Field(regs, SPG_LOAD, HCOUNT), Flag(regs, SPG_CONTROL, INTERLACE))
  }

  /** Whether the framebuffer copy-out finds a frame to push. */
  predicate Pushes(c: FrameConfig, v: seq<u8>)
    requires |v| == VRAM_STORE && c.field < 2
  {
    c.enable && Dirty(v, FieldStart(c, c.field))
  }

  /** The frame pushed to the video output, if any. */
  function PushEvents(c: FrameConfig, v: seq<u8>): seq<Event>
    requires |v| == VRAM_STORE && c.field < 2
  {
    if Pushes(c, v) then
      var s := FramebufferSize(c.x, c.y, c.depth, c.interlace);
      [PushPixels(s.width, s.height)]
    else []
  }

  /** The field number after a vertical blank: flipped when interlaced,
      otherwise field 0. */
  function NextField(regs: seq<u32>): (f: nat)
    requires |regs| == NUM_REGS
    ensures f < 2
    ensures Flag(regs, SPG_CONTROL, INTERLACE) ==> f != Field(regs, SPG_STATUS, FIELDNUM)
    ensures !Flag(regs, SPG_CONTROL, INTERLACE) ==> f == 0
  {
    if Flag(regs, SPG_CONTROL, INTERLACE) then 1 - Field(regs, SPG_STATUS, FIELDNUM) else 0
  }

  /** The new scanline for a tick from line `prev`. */
  function TickLine(regs: seq<u32>, prev: nat): nat
    requires |regs| == NUM_REGS
  {
    NextLine(prev, Field(regs, SPG_LOAD, VCOUNT))
  }

  function HblankOf(regs: seq<u32>, line: nat): Option<bool>
    requires |regs| == NUM_REGS
  {
    HblankRaises(Field(regs, SPG_HBLANK_INT, HBLANK_INT_MODE), line, Field(regs, SPG_HBLANK_INT, LINE_COMP_VAL))
  }

  predicate InVsync(regs: seq<u32>, line: nat)
    requires |regs| == NUM_REGS
  {
    VsyncLevel(line, Field(regs, SPG_VBLANK, VBSTART), Field(regs, SPG_VBLANK, VBEND))
  }

  /** The interrupts a tick raises on `line`, in order: hblank, vblank-in, vblank-out. */
  function LineInterrupts(regs: seq<u32>, line: nat): seq<Event>
    requires |regs| == NUM_REGS && HblankOf(regs, line).Some?
  {
    (if HblankOf(regs, line).value then [RaiseInterrupt(PCHIINT)] else [])
    + (if line == Field(regs, SPG_VBLANK_INT, VBLANK_IN_LINE) then [RaiseInterrupt(PCVIINT)] else [])
    + (if line == Field(regs, SPG_VBLANK_INT, VBLANK_OUT_LINE) then [RaiseInterrupt(PCVOINT)] else [])
  }

  /** A tick on `line` enters vertical sync. */
  predicate VsyncRises(regs: seq<u32>, line: nat)
    requires |regs| == NUM_REGS
  {
    !Flag(regs, SPG_STATUS, VSYNC) && InVsync(regs, line)
  }

  /** A tick on `line` leaves vertical sync. */
  predicate VsyncFalls(regs: seq<u32>, line: nat)
    requires |regs| == NUM_REGS
  {
    Flag(regs, SPG_STATUS, VSYNC) && !InVsync(regs, line)
  }

  /** Whether a vblank-in copies a frame out: no render was started this
      frame and the current field is dirty. */
  predicate CopiesOut(regs: seq<u32>, startRender: bool, v: seq<u8>)
    requires |regs| == NUM_REGS && |v| == VRAM_STORE
  {
    !startRender && Pushes(ConfigOf(regs), v)
  }

  /** The calls of a vblank-in: the copied-out frame, if any, then the video
      output's vblank-in with the blank-video flag. */
  function VblankInEvents(regs: seq<u32>, startRender: bool, v: seq<u8>): seq<Event>
    requires |regs| == NUM_REGS && |v| == VRAM_STORE
  {
    (if startRender then [] else PushEvents(ConfigOf(regs), v)) + [DcVblankIn(Flag(regs, VO_CONTROL, BLANK_VIDEO))]
  }

  /** The calls of a vsync edge on `line`: the vblank-in of a rising edge,
      the vblank-out of a falling one. */
  function EdgeEvents(regs: seq<u32>, line: nat, startRender: bool, v: seq<u8>): seq<Event>
    requires |regs| == NUM_REGS && |v| == VRAM_STORE
  {
    if VsyncRises(regs, line) then VblankInEvents(regs, startRender, v)
    else if VsyncFalls(regs, line) then [DcVblankOut]
    else []
  }

  /** The calls of a completed tick on `line`: its interrupts, then those
      of a vsync edge. */
  function TickEvents(regs: seq<u32>, line: nat, startRender: bool, v: seq<u8>): seq<Event>
    requires |regs| == NUM_REGS && |v| == VRAM_STORE && HblankOf(regs, line).Some?
  {
    LineInterrupts(regs, line) + EdgeEvents(regs, line, startRender, v)
  }

  /** The RGB buffer `out` and its size `w` x `h` after a possible
      copy-out: the decoded frame of the configuration in `regs` if
      `copied`, otherwise the buffer and size as they were. */
  ghost predicate CopiedOut(out: seq<u8>, w: int, h: int, before: seq<u8>, w0: int, h0: int,
                            regs: seq<u32>, v: seq<u8>, copied: bool)
    requires |regs| == NUM_REGS && |v| == VRAM_STORE
  {
    if copied then
      var c := ConfigOf(regs);
      var s := FramebufferSize(c.x, c.y, c.depth, c.interlace);
      && w == s.width && h == s.height
      && FrameDecoded(out, before, c, FormatOf(c.depth).value, v)
    else
      out == before && w == w0 && h == h0
  }

  lemma Concat3<T>(a: seq<T>, b: seq<T>, c: seq<T>)
    ensures a + b + c == a + (b + c)
  {
  }

  /** SPG_STATUS after a tick: scanline, vsync and field number as given,
      every bit outside those three fields as before. */
  ghost predicate StatusAfterTick(before: nat, after: nat, line: nat, vsync: bool, field: nat)
  {
    && Get(after, SCANLINE) == line
    && Get(after, VSYNC) == (if vsync then 1 else 0)
    && Get(after, FIELDNUM) == field
    && forall g :: Disjoint(g, SCANLINE) && Disjoint(g, VSYNC) && Disjoint(g, FIELDNUM) ==> Get(after, g) == Get(before, g)
  }

  /** Storing vsync then the scanline sets those two fields and keeps the rest. */
  lemma StatusTick(w: u32, line: nat, vs: nat)
    requires line < 0x400 && vs < 2
    ensures vs < Pow2(VSYNC.width) && line < Pow2(SCANLINE.width) && Put(w, VSYNC, vs) < U32_LIMIT
    ensures Put(Put(w, VSYNC, vs), SCANLINE, line) < U32_LIMIT
    ensures StatusAfterTick(w, Put(Put(w, VSYNC, vs), SCANLINE, line), line, vs == 1, Get(w, FIELDNUM))
  {
    Pow2Values();
    var w1 := Put(w, VSYNC, vs);
    PutBound(w, VSYNC, vs);
    var w2 := Put(w1, SCANLINE, line);
    PutBound(w1, SCANLINE, line);
    GetPut(w, VSYNC, vs);
    GetPut(w1, SCANLINE, line);
    GetPutOther(w1, SCANLINE, line, VSYNC);
    GetPutOther(w, VSYNC, vs, FIELDNUM);
    GetPutOther(w1, SCANLINE, line, FIELDNUM);
    forall g | Disjoint(g, SCANLINE) && Disjoint(g, VSYNC) && Disjoint(g, FIELDNUM)
      ensures Get(w2, g) == Get(w, g)
    {
      GetPutOther(w, VSYNC, vs, g);
      GetPutOther(w1, SCANLINE, line, g);
    }
  }

  /** A tick's status store changes no register view but the status
      fields: the framebuffer configuration, the next field and the
      blank-video flag read the same. */
  lemma TickKeepsViews(regs: seq<u32>, regs1: seq<u32>, line: nat, vsync: bool)
    requires |regs| == NUM_REGS && |regs1| == NUM_REGS && regs1 == regs[SPG_STATUS := regs1[SPG_STATUS]]
    requires StatusAfterTick(regs[SPG_STATUS], regs1[SPG_STATUS], line, vsync, Field(regs, SPG_STATUS, FIELDNUM))
    ensures ConfigOf(regs1) == ConfigOf(regs) && NextField(regs1) == NextField(regs)
    ensures Flag(regs1, VO_CONTROL, BLANK_VIDEO) == Flag(regs, VO_CONTROL, BLANK_VIDEO)
  {
  }

  /** Flipping the field at vertical blank keeps the tick's other fields. */
  lemma StatusFlip(w: nat, w2: nat, line: nat, vsync: bool, f0: nat, f: nat)
    requires f < 2 && StatusAfterTick(w, w2, line, vsync, f0)
    ensures StatusAfterTick(w, Put(w2, FIELDNUM, f), line, vsync, f)
  {
    var w3 := Put(w2, FIELDNUM, f);
    GetPut(w2, FIELDNUM, f);
    GetPutOther(w2, FIELDNUM, f, SCANLINE);
    GetPutOther(w2, FIELDNUM, f, VSYNC);
    forall g | Disjoint(g, SCANLINE) && Disjoint(g, VSYNC) && Disjoint(g, FIELDNUM)
      ensures Get(w3, g) == Get(w, g)
    {
      GetPutOther(w2, FIELDNUM, f, g);
    }
  }

  class Pvr {
    /** Video memory, shared with the memory map. */
    const vram: array<u8>
    /** The raw register words. */
    const reg: array<u32>
    /** The 24-bit RGB copy of the last framebuffer pushed. */
    const framebuffer: array<u8>
    var framebufferW: int
    var framebufferH: int
    var currentLine: nat
    var lineClock: nat
    /** Whether the device holds a line-timer handle. */
    var lineTimer: bool
    var gotStartRender: bool
    /** Line timers of this device waiting in the scheduler, and the rate of the last one started. */
    ghost var pendingTimers: nat
    ghost var timerHz: nat
    ghost var events: seq<Event>

    ghost predicate Consistent()
      reads this
    {
      && vram.Length == VRAM_STORE
      && reg.Length == NUM_REGS
      && framebuffer.Length == FB_CAPACITY
      && vram != framebuffer
      && pendingTimers <= (if lineTimer then 1 else 0)
    }

    /** Between scanline ticks: exactly one line timer is pending, at the current line rate. */
    ghost predicate Valid()
      reads this
    {
      Consistent() && lineTimer && pendingTimers == 1 && timerHz == lineClock && lineClock > 0
    }

    /** `pvr_init`: the registers take their reset values (the register
        table's defaults), video memory is the console's, and the
        sync-pulse generator starts. */
    constructor(vram: array<u8>, defaults: seq<u32>)
      requires vram.Length == VRAM_STORE && |defaults| == NUM_REGS
      ensures Valid()
      ensures this.vram == vram && fresh(reg) && fresh(framebuffer)
      ensures reg[..] == defaults && vram[..] == old(vram[..])
      ensures currentLine == 0 && !gotStartRender && events == []
      ensures lineClock == LineClockOf(defaults)
    {
      this.vram := vram;
      reg := new u32[NUM_REGS](i requires 0 <= i < NUM_REGS => defaults[i]);
      framebuffer := new u8[FB_CAPACITY](_ => 0);
      framebufferW, framebufferH := 0, 0;
      currentLine := 0;
      lineClock := 0;
      lineTimer := false;
      gotStartRender := false;
      pendingTimers, timerHz := 0, 0;
      events := [];
      new;
      ReconfigureSpg();
    }

    /** `pvr_reconfigure_spg`: recompute the line rate and restart the line
        timer at it, cancelling the old one. */
    method ReconfigureSpg()
      requires Consistent()
      modifies this`lineClock, this`lineTimer, this`pendingTimers, this`timerHz
      ensures Valid()
      ensures lineClock == LineClockOf(reg[..])
    {
      UpdateLineClock();
      if lineTimer {
        // sched_cancel_timer
        pendingTimers := 0;
        lineTimer := false;
      }
      // sched_start_timer
      lineTimer, pendingTimers, timerHz := true, 1, lineClock;
    }

    /** The line rate: the pixel clock (doubled by vclk_div) over hcount + 1
        clocks per line, doubled when interlaced. */
    method UpdateLineClock()
      requires Consistent()
      modifies this`lineClock
      ensures lineClock == LineClockOf(reg[..]) && lineClock > 0
    {
      var vclkDiv := Get(reg[FB_R_CTRL], VCLK_DIV) == 1;
      var hcount := Get(reg[SPG_LOAD], HCOUNT);
      var interlace := Get(reg[SPG_CONTROL], INTERLACE) == 1;
      var pixelClock: nat := 13500000;
      if vclkDiv {
        pixelClock := pixelClock * 2;
      }
      DivNonneg(pixelClock, hcount + 1);
      lineClock := pixelClock / (hcount + 1);
      if interlace {
        lineClock := lineClock * 2;
      }
      assert hcount < 0x400 by { Pow2Values(); }
      LineClockPositive(vclkDiv, hcount, interlace);
    }

    // -------------------------------------------------------------------
    // Video memory

    method LoadWord(i: nat) returns (w: u32)
      requires Consistent() && i + 4 <= vram.Length
      ensures w == Word(vram[..], i)
    {
      w := vram[i] as int + 0x100 * vram[i + 1] as int + 0x10000 * vram[i + 2] as int + 0x1000000 * vram[i + 3] as int;
    }

    method StoreWord(i: nat, w: u32)
      requires Consistent() && i + 4 <= vram.Length
      modifies vram
      ensures vram[..] == PutWord(old(vram[..]), i, w)
    {
      WordBytes(w);
      vram[i] := w % 0x100;
      vram[i + 1] := (w / 0x100) % 0x100;
      vram[i + 2] := (w / 0x10000) % 0x100;
      vram[i + 3] := w / 0x1000000;
    }

    /** `pvr_vram32_read`: a word through the 32-bit path. */
    method Vram32Read(addr: u32) returns (data: u32)
      requires Consistent()
      ensures data == Word(vram[..], Vram64(addr))
    {
      data := LoadWord(Vram64(addr));
    }

    /** `pvr_vram32_write`: a word through the 32-bit path. */
    method Vram32Write(addr: u32, data: u32)
      requires Consistent()
      modifies vram
      ensures vram[..] == PutWord(old(vram[..]), Vram64(addr), data)
    {
      StoreWord(Vram64(addr), data);
    }

    /** `pvr_vram64_read`: a word at its canonical offset. */
    method Vram64Read(addr: u32) returns (data: u32)
      requires Consistent() && addr < VRAM_SIZE
      ensures data == Word(vram[..], addr)
    {
      data := LoadWord(addr);
    }

    /** `pvr_vram64_write`: a word at its canonical offset. */
    method Vram64Write(addr: u32, data: u32)
      requires Consistent() && addr < VRAM_SIZE
      modifies vram
      ensures vram[..] == PutWord(old(vram[..]), addr, data)
    {
      StoreWord(addr, data);
    }

    // -------------------------------------------------------------------
    // The framebuffer cookie

    /** `pvr_test_framebuffer`. */
    method TestFramebuffer(addr: u32) returns (dirty: bool)
      requires Consistent()
      ensures dirty == Dirty(vram[..], addr)
    {
      var data := LoadWord(Vram64(addr));
      dirty := data != COOKIE;
    }

    /** `pvr_mark_framebuffer`: the cookie at the start and at one line
        size further on for every width, depth and scale in the tables. */
    method MarkFramebuffer(addr: u32)
      requires Consistent()
      modifies vram
      ensures vram[..] == Marked(old(vram[..]), addr)
    {
      if (addr / 0x1000000) % 2 == 1 {
        return;
      }
      ghost var v0 := vram[..];
      StoreCookie(Vram64(addr), v0, addr, 0);
      ghost var m := 1;
      var i := 0;
      while i < 2
        invariant 0 <= i <= 2 && m == 1 + 6 * i
        invariant vram[..] == MarkedFirst(v0, addr, m)
      {
        MarkWidth(addr, i, v0, m);
        i, m := i + 1, m + 6;
      }
      MarkedFirstAll(v0, addr, 13);
      StoreCookiesEnds(v0, MarkAddresses(addr));
    }

    /** The depth and scale loops of the marking for line width `i`, the
        stores from number `m` on. */
    method MarkWidth(addr: u32, i: nat, ghost v0: seq<u8>, ghost m: nat)
      requires Consistent() && |v0| == VRAM_STORE && i < 2 && m == 1 + 6 * i
      requires vram[..] == MarkedFirst(v0, addr, m)
      modifies vram
      ensures vram[..] == MarkedFirst(v0, addr, m + 6)
    {
      ghost var n := m;
      var j := 0;
      while j < 3
        invariant 0 <= j <= 3 && n == m + 2 * j
        invariant vram[..] == MarkedFirst(v0, addr, n)
      {
        MarkDepth(addr, i, j, v0, n);
        j, n := j + 1, n + 2;
      }
    }

    /** The scale loop of the marking for line width `i` and depth `j`, the
        stores from number `m` on. */
    method MarkDepth(addr: u32, i: nat, j: nat, ghost v0: seq<u8>, ghost m: nat)
      requires Consistent() && |v0| == VRAM_STORE && i < 2 && j < 3 && m == 1 + 6 * i + 2 * j
      requires vram[..] == MarkedFirst(v0, addr, m)
      modifies vram
      ensures vram[..] == MarkedFirst(v0, addr, m + 2)
    {
      ghost var n := m;
      var k := 0;
      while k < 2
        invariant 0 <= k <= 2 && n == m + k
        invariant vram[..] == MarkedFirst(v0, addr, n)
      {
        var nextLine := Add32(addr, LineSize(i, j, k));
        MarksEveryLineSize(addr, i, j, k);
        StoreCookie(Vram64(nextLine), v0, addr, n);
        k, n := k + 1, n + 1;
      }
    }

    /** One cookie store of the marking: the next address of the list. */
    method StoreCookie(i: nat, ghost v0: seq<u8>, ghost addr: u32, ghost m: nat)
      requires Consistent() && |v0| == VRAM_STORE && m < 13 && i == Vram64(MarkAddresses(addr)[m])
      requires vram[..] == MarkedFirst(v0, addr, m)
      modifies vram
      ensures vram[..] == MarkedFirst(v0, addr, m + 1)
    {
      StoreWord(i, COOKIE);
    }

    // -------------------------------------------------------------------
    // Framebuffer copy-out

    /** The innermost loop of `pvr_update_framebuffer`: the pixels of one
        line of one field, `x_size` bytes from `src`, decoded to `dst`. */
    method DecodeLine(fmt: Format, xSize: nat, src: u32, dst: nat) returns (next: u32, end: nat)
      requires Consistent()
      requires dst + 3 * Steps(xSize, fmt) <= framebuffer.Length
      modifies framebuffer
      ensures next == Add32(src, Steps(xSize, fmt) * BytesPerPixel(fmt))
      ensures end == dst + 3 * Steps(xSize, fmt)
      ensures LineDecoded(framebuffer[..], old(framebuffer[..]), fmt, vram[..], src, dst, Steps(xSize, fmt))
    {
      var step := BytesPerPixel(fmt);
      ghost var count := Steps(xSize, fmt);
      ghost var before := framebuffer[..];
      next := src;
      end := dst;
      var x := 0;
      ghost var k := 0;
      while x < xSize
        invariant 0 <= k <= count && x == k * step && end == dst + 3 * k
        invariant next == Add32(src, k * step)
        invariant LineDecoded(framebuffer[..], before, fmt, vram[..], src, dst, k)
        decreases xSize - x
      {
        PixelAdvance(xSize, fmt, src, k);
        CopyPixel(fmt, next, end, src, dst, k, before);
        next := Add32(next, step);
        x := x + step;
        end := end + 3;
        k := k + 1;
      }
      StepsExact(xSize, fmt, k);
    }

    /** One iteration of the pixel loop: the pixel at `src` decoded into the
        three bytes at `dst`, the `k`-th pixel of the line begun at `src0`, `dst0`. */
    method CopyPixel(fmt: Format, src: u32, dst: nat, ghost src0: u32, ghost dst0: nat, ghost k: nat, ghost before: seq<u8>)
      requires Consistent()
      requires src == Add32(src0, k * BytesPerPixel(fmt)) && dst == dst0 + 3 * k && dst + 3 <= framebuffer.Length
      requires LineDecoded(framebuffer[..], before, fmt, vram[..], src0, dst0, k)
      modifies framebuffer
      ensures LineDecoded(framebuffer[..], before, fmt, vram[..], src0, dst0, k + 1)
    {
      var px := DecodePixel(fmt, vram[..], Vram64(src));
      LineDecodedStep(framebuffer[..], before, fmt, vram[..], src0, dst0, k);
      WritePixel(dst, px);
    }

    /** The three bytes of one decoded pixel, written at `d`. */
    method WritePixel(d: nat, px: seq<u8>)
      requires Consistent() && d + 3 <= framebuffer.Length && |px| == 3
      modifies framebuffer
      ensures framebuffer[..] == old(framebuffer[..])[d := px[0]][d + 1 := px[1]][d + 2 := px[2]]
    {
      framebuffer[d] := px[0];
      framebuffer[d + 1] := px[1];
      framebuffer[d + 2] := px[2];
    }

    /** The line loop of `pvr_update_framebuffer`: `y_size` lines, each of
        them once per field. */
    method DecodeFrame(fmt: Format, fields0: seq<u32>, numFields: nat, xSize: nat, ySize: nat, lineMod: int, ghost c: FrameConfig)
      requires Consistent()
      requires c.x < 0x400 && c.y < 0x400
      requires fields0 == [c.sof1, c.sof2] && numFields == NumFields(c)
      requires xSize == LineBytes(c) && ySize == c.y + 1 && lineMod == LineMod(c)
      modifies framebuffer
      ensures FrameDecoded(framebuffer[..], old(framebuffer[..]), c, fmt, vram[..])
    {
      ghost var pr := PixelsPerLine(c, fmt);
      ghost var before := framebuffer[..];
      var fields := fields0;
      var dst := 0;
      ghost var row := 0;
      var y := 0;
      while y < ySize
        invariant 0 <= y <= ySize
        invariant row == y * numFields && dst == 3 * (row * pr)
        invariant |fields| == 2
        invariant forall m :: 0 <= m < numFields ==> fields[m] == Add32(FieldStart(c, m), y * RowAdvance(c, fmt))
        invariant Decoded(framebuffer[..], before, c, fmt, vram[..], row * pr)
      {
        fields, dst := DecodeRow(fmt, fields, numFields, xSize, lineMod, dst, c, before, y, row);
        MulSucc(y, numFields);
        row := row + numFields;
        y := y + 1;
      }
    }

    /** The field loop of `pvr_update_framebuffer` for line `y`: the line of
        every field, each field pointer moving on by `line_mod` after it. */
    method DecodeRow(fmt: Format, fields0: seq<u32>, numFields: nat, xSize: nat, lineMod: int, dst0: nat,
                     ghost c: FrameConfig, ghost before: seq<u8>, ghost y: nat, ghost row: nat)
      returns (fields: seq<u32>, dst: nat)
      requires Consistent()
      requires c.x < 0x400 && c.y < 0x400 && y <= c.y
      requires numFields == NumFields(c) && xSize == LineBytes(c) && lineMod == LineMod(c)
      requires |fields0| == 2
      requires forall m :: 0 <= m < numFields ==> fields0[m] == Add32(FieldStart(c, m), y * RowAdvance(c, fmt))
      requires row == y * numFields && dst0 == 3 * (row * PixelsPerLine(c, fmt))
      requires Decoded(framebuffer[..], before, c, fmt, vram[..], row * PixelsPerLine(c, fmt))
      modifies framebuffer
      ensures |fields| == 2
      ensures forall m :: 0 <= m < numFields ==> fields[m] == Add32(FieldStart(c, m), (y + 1) * RowAdvance(c, fmt))
      ensures dst == 3 * ((row + numFields) * PixelsPerLine(c, fmt))
      ensures Decoded(framebuffer[..], before, c, fmt, vram[..], (row + numFields) * PixelsPerLine(c, fmt))
    {
      ghost var pr := PixelsPerLine(c, fmt);
      ghost var adv := RowAdvance(c, fmt);
      ghost var v := vram[..];
      FrameFits(c, fmt);
      fields, dst := fields0, dst0;
      ghost var done := row * pr;
      var n := 0;
      while n < numFields
        invariant 0 <= n <= numFields
        invariant done == (row + n) * pr && dst == 3 * done
        invariant |fields| == 2
        invariant forall m :: 0 <= m < n ==> fields[m] == Add32(FieldStart(c, m), (y + 1) * adv)
        invariant forall m :: n <= m < numFields ==> fields[m] == Add32(FieldStart(c, m), y * adv)
        invariant Decoded(framebuffer[..], before, c, fmt, v, done)
      {
        ghost var out0 := framebuffer[..];
        RowFits(c, fmt, y, n);
        var next;
        next, dst := DecodeLine(fmt, xSize, fields[n], dst);
        RowDecoded(out0, framebuffer[..], before, c, fmt, v, y, n, done);
        NextRowStart(c, fmt, y, n);
        fields := fields[n := Add32(next, lineMod)];
        MulSucc(row + n, pr);
        done := done + pr;
        n := n + 1;
      }
    }

    /** `pvr_update_framebuffer`: when the framebuffer is enabled and its
        current field no longer holds the cookie, decode every line of every
        field into the RGB buffer and push it to the video output. */
    method UpdateFramebuffer() returns (pushed: bool)
      requires Consistent()
      modifies this`framebufferW, this`framebufferH, this`events, framebuffer
      ensures pushed == Pushes(ConfigOf(reg[..]), vram[..])
      ensures events == old(events) + PushEvents(ConfigOf(reg[..]), vram[..])
      ensures CopiedOut(framebuffer[..], framebufferW, framebufferH, old(framebuffer[..]), old(framebufferW), old(framebufferH),
        reg[..], vram[..], pushed)
    {
      ghost var c := ConfigOf(reg[..]);
      var fields := [reg[FB_R_SOF1], reg[FB_R_SOF2]];
      var numFields := if Get(reg[SPG_CONTROL], INTERLACE) == 1 then 2 else 1;
      var field := Get(reg[SPG_STATUS], FIELDNUM);
      if Get(reg[FB_R_CTRL], FB_ENABLE) != 1 {
        return false;
      }
      var dirty := TestFramebuffer(fields[field]);
      if !dirty {
        return false;
      }
      var size := FramebufferSize(Get(reg[FB_R_SIZE], FB_X), Get(reg[FB_R_SIZE], FB_Y), Get(reg[FB_R_CTRL], FB_DEPTH), numFields == 2);
      framebufferW, framebufferH := size.width, size.height;

      var lineMod := Get(reg[FB_R_SIZE], FB_MOD) * 4 - 4;
      var xSize := (Get(reg[FB_R_SIZE], FB_X) + 1) * 4;
      var ySize := Get(reg[FB_R_SIZE], FB_Y) + 1;
      // fb_depth is a two-bit field, so one of the four formats applies
      var fmt := FormatOf(Get(reg[FB_R_CTRL], FB_DEPTH)).value;
      DecodeFrame(fmt, fields, numFields, xSize, ySize, lineMod, c);
      events := events + [PushPixels(size.width, size.height)];
      return true;
    }

    /** `pvr_vblank_in`: copy out a framebuffer the CPU drew (unless a
        render was started this frame, in which case only clear that flag),
        move to the next field and signal the video output. */
    method VblankIn()
      requires Consistent()
      modifies this`gotStartRender, this`framebufferW, this`framebufferH, this`events, reg, framebuffer
      ensures !gotStartRender
      ensures reg[..] == old(reg[..])[SPG_STATUS := Put(old(reg[SPG_STATUS]), FIELDNUM, NextField(old(reg[..])))]
      ensures events == old(events) + VblankInEvents(old(reg[..]), old(gotStartRender), vram[..])
      ensures CopiedOut(framebuffer[..], framebufferW, framebufferH, old(framebuffer[..]), old(framebufferW), old(framebufferH),
        old(reg[..]), vram[..], CopiesOut(old(reg[..]), old(gotStartRender), vram[..]))
    {
      ghost var pushed: seq<Event> := [];
      if !gotStartRender {
        var _ := UpdateFramebuffer();
        pushed := PushEvents(ConfigOf(reg[..]), vram[..]);
      } else {
        gotStartRender := false;
      }
      var f := NextField(reg[..]);
      var blank := Get(reg[VO_CONTROL], BLANK_VIDEO) == 1;
      PutField(SPG_STATUS, FIELDNUM, f);
      Concat3(old(events), pushed, [DcVblankIn(blank)]);
      events := events + [DcVblankIn(blank)];
    }

    /** `pvr_vblank_out`. */
    method VblankOut()
      modifies this`events
      ensures events == old(events) + [DcVblankOut]
    {
      events := events + [DcVblankOut];
    }

    /** Store `v` into field `f` of register `r`. */
    method PutField(r: nat, f: BitField, v: nat)
      requires Consistent() && r < NUM_REGS
      requires v < Pow2(f.width) && f.shift + f.width <= 32
      modifies reg
      ensures reg[..] == old(reg[..])[r := Put(old(reg[r]), f, v)]
    {
      PutBound(reg[r], f, v);
      reg[r] := Put(reg[r], f, v);
    }

    // -------------------------------------------------------------------
    // The scanline tick

    /** `pvr_next_scanline`, run when the line timer fires: advance the
        scanline, raise the line's interrupts, update SPG_STATUS, act on a
        vsync edge and start the next line timer. An unsupported hblank
        interrupt mode is fatal. */
    method NextScanline() returns (r: Outcome)
      requires Valid()
      modifies this`currentLine, this`gotStartRender, this`framebufferW, this`framebufferH
      modifies this`lineTimer, this`pendingTimers, this`timerHz, this`events, reg, framebuffer
      ensures currentLine == TickLine(old(reg[..]), old(currentLine))
      ensures r.Fatal? <==> HblankOf(old(reg[..]), currentLine).None?
      ensures r.Fatal? ==> (reg[..] == old(reg[..]) && events == old(events) && pendingTimers == 0
        && framebuffer[..] == old(framebuffer[..]) && gotStartRender == old(gotStartRender))
      ensures r.Ok? ==> Valid() && lineClock == old(lineClock)
      ensures r.Ok? ==> reg[..] == old(reg[..])[SPG_STATUS := reg[SPG_STATUS]]
      ensures r.Ok? ==> StatusAfterTick(old(reg[SPG_STATUS]), reg[SPG_STATUS], currentLine, InVsync(old(reg[..]), currentLine),
        if VsyncRises(old(reg[..]), currentLine) then NextField(old(reg[..])) else Field(old(reg[..]), SPG_STATUS, FIELDNUM))
      ensures r.Ok? ==> gotStartRender == (old(gotStartRender) && !VsyncRises(old(reg[..]), currentLine))
      ensures r.Ok? ==> events == old(events) + TickEvents(old(reg[..]), currentLine, old(gotStartRender), vram[..])
      ensures r.Ok? ==> CopiedOut(framebuffer[..], framebufferW, framebufferH, old(framebuffer[..]), old(framebufferW), old(framebufferH),
        old(reg[..]), vram[..], VsyncRises(old(reg[..]), currentLine) && CopiesOut(old(reg[..]), old(gotStartRender), vram[..]))
    {
      ghost var regs := reg[..];
      Pow2Values();
      // the line timer has fired
      pendingTimers := 0;

      AdvanceLine();
      r := RaiseLineInterrupts(currentLine);
      if r.Fatal? {
        return;
      }
      TickStatus(currentLine, regs);
      Concat3(old(events), LineInterrupts(regs, currentLine), EdgeEvents(regs, currentLine, old(gotStartRender), vram[..]));

      // reschedule
      lineTimer, pendingTimers, timerHz := true, 1, lineClock;
    }

    /** The status half of a tick: update SPG_STATUS, then run the
        vblank-in of a rising vsync edge or the vblank-out of a falling one. */
    method TickStatus(line: nat, ghost regs: seq<u32>)
      requires Consistent() && line < 0x400 && reg[..] == regs
      modifies this`gotStartRender, this`framebufferW, this`framebufferH, this`events, reg, framebuffer
      ensures reg[..] == regs[SPG_STATUS := reg[SPG_STATUS]]
      ensures StatusAfterTick(regs[SPG_STATUS], reg[SPG_STATUS], line, InVsync(regs, line),
        if VsyncRises(regs, line) then NextField(regs) else Field(regs, SPG_STATUS, FIELDNUM))
      ensures gotStartRender == (old(gotStartRender) && !VsyncRises(regs, line))
      ensures events == old(events) + EdgeEvents(regs, line, old(gotStartRender), vram[..])
      ensures CopiedOut(framebuffer[..], framebufferW, framebufferH, old(framebuffer[..]), old(framebufferW), old(framebufferH),
        regs, vram[..], VsyncRises(regs, line) && CopiesOut(regs, old(gotStartRender), vram[..]))
    {
      var wasVsync, vsync := UpdateStatus(line);
      ghost var ticked := reg[SPG_STATUS];
      TickKeepsViews(regs, reg[..], line, vsync);
      if !wasVsync && vsync {
        VblankIn();
        StatusFlip(regs[SPG_STATUS], ticked, line, vsync, Get(regs[SPG_STATUS], FIELDNUM), NextField(regs));
      } else if wasVsync && !vsync {
        VblankOut();
      }
    }

    /** `current_line = (current_line + 1) % num_lines`. */
    method AdvanceLine()
      requires Consistent()
      modifies this`currentLine
      ensures currentLine == TickLine(reg[..], old(currentLine)) && currentLine < 0x400
    {
      Pow2Values();
      var numLines := Get(reg[SPG_LOAD], VCOUNT) + 1;
      currentLine := (currentLine + 1) % numLines;
    }

    /** The interrupts of a scanline: hblank-in by the hblank interrupt
        mode (an unsupported mode is fatal), then vblank-in and vblank-out
        on their configured lines. */
    method RaiseLineInterrupts(line: nat) returns (r: Outcome)
      requires Consistent()
      modifies this`events
      ensures r.Fatal? <==> HblankOf(reg[..], line).None?
      ensures r.Fatal? ==> events == old(events)
      ensures r.Ok? ==> events == old(events) + LineInterrupts(reg[..], line)
    {
      // hblank in
      var mode := Get(reg[SPG_HBLANK_INT], HBLANK_INT_MODE);
      var hblank := false;
      if mode == 0 {
        hblank := line == Get(reg[SPG_HBLANK_INT], LINE_COMP_VAL);
      } else if mode == 2 {
        hblank := true;
      } else {
        return Fatal;
      }
      var hblankIn: seq<Event> := if hblank then [RaiseInterrupt(PCHIINT)] else [];
      // vblank in
      var vblankIn: seq<Event> := if line == Get(reg[SPG_VBLANK_INT], VBLANK_IN_LINE) then [RaiseInterrupt(PCVIINT)] else [];
      // vblank out
      var vblankOut: seq<Event> := if line == Get(reg[SPG_VBLANK_INT], VBLANK_OUT_LINE) then [RaiseInterrupt(PCVOINT)] else [];
      events := events + (hblankIn + vblankIn + vblankOut);
      return Ok;
    }

    /** Store the vsync level and the scanline into SPG_STATUS, returning the
        vsync levels before and after. */
    method UpdateStatus(line: nat) returns (wasVsync: bool, vsync: bool)
      requires Consistent() && line < 0x400
      modifies reg
      ensures wasVsync == Flag(old(reg[..]), SPG_STATUS, VSYNC)
      ensures vsync == InVsync(old(reg[..]), line)
      ensures reg[..] == old(reg[..])[SPG_STATUS := reg[SPG_STATUS]]
      ensures StatusAfterTick(old(reg[SPG_STATUS]), reg[SPG_STATUS], line, vsync, Field(old(reg[..]), SPG_STATUS, FIELDNUM))
    {
      var status := reg[SPG_STATUS];
      wasVsync := Get(status, VSYNC) == 1;
      var vbstart, vbend := Get(reg[SPG_VBLANK], VBSTART), Get(reg[SPG_VBLANK], VBEND);
      vsync := if vbstart < vbend then line >= vbstart && line < vbend
        else line >= vbstart || line < vbend;
      var vs := if vsync then 1 else 0;
      StatusTick(status, line, vs);
      reg[SPG_STATUS] := Put(Put(status, VSYNC, vs), SCANLINE, line);
    }

    // -------------------------------------------------------------------
    // Registers

    /** `pvr_reg_read`: no register of this block has a read hook. */
    method RegRead(addr: u32) returns (data: u32)
      requires Consistent() && addr / 4 < NUM_REGS
      ensures data == reg[addr / 4]
    {
      data := reg[addr / 4];
    }

    /** `pvr_reg_write`: writes to ID are dropped, a hooked register goes to
        its handler, any other register stores the value. */
    method RegWrite(addr: u32, data: u32)
      requires Valid() && addr / 4 < NUM_REGS
      modifies reg, vram, this`gotStartRender, this`lineClock, this`lineTimer, this`pendingTimers, this`timerHz, this`events
      ensures Valid()
      ensures var offset := addr / 4;
        reg[..] == (if offset == ID then old(reg[..])
          else if WriteHook(offset).None? || StoresValue(WriteHook(offset).value) then old(reg[..])[offset := data]
          else old(reg[..]))
      ensures var offset := addr / 4;
        events == old(events) + (if offset != ID && WriteHook(offset).Some? && Triggered(WriteHook(offset).value, data)
          then HandlerCalls(WriteHook(offset).value) else [])
      ensures var offset := addr / 4;
        if offset != ID && WriteHook(offset) == Some(StartRender) && Triggered(StartRender, data) then
          vram[..] == Marked(Marked(old(vram[..]), old(reg[FB_W_SOF1])), old(reg[FB_W_SOF2])) && gotStartRender
        else
          vram[..] == old(vram[..]) && gotStartRender == old(gotStartRender)
      ensures var offset := addr / 4;
        lineClock == (if offset != ID && WriteHook(offset) in {Some(SpgLoad), Some(FbRCtrl)} then LineClockOf(reg[..]) else old(lineClock))
    {
      var offset := addr / 4;
      if offset == ID {
        return;
      }
      var hook := WriteHook(offset);
      if hook.Some? {
        RunHandler(hook.value, offset, data);
        return;
      }
      reg[offset] := data;
    }

    /** A register write hook `h` installed on `offset`, called with `value`. */
    method RunHandler(h: Handler, offset: nat, value: u32)
      requires Valid() && offset < NUM_REGS && WriteHook(offset) == Some(h)
      modifies reg, vram, this`gotStartRender, this`lineClock, this`lineTimer, this`pendingTimers, this`timerHz, this`events
      ensures Valid()
      ensures reg[..] == if StoresValue(h) then old(reg[..])[offset := value] else old(reg[..])
      ensures events == old(events) + (if Triggered(h, value) then HandlerCalls(h) else [])
      ensures if h == StartRender && Triggered(h, value) then
          vram[..] == Marked(Marked(old(vram[..]), old(reg[FB_W_SOF1])), old(reg[FB_W_SOF2])) && gotStartRender
        else
          vram[..] == old(vram[..]) && gotStartRender == old(gotStartRender)
      ensures lineClock == if h == SpgLoad || h == FbRCtrl then LineClockOf(reg[..]) else old(lineClock)
    {
      match h {
        case SoftReset =>
          if value % 2 == 1 {
            events := events + [TaSoftReset];
          }
        case StartRender =>
          StartRenderWrite(value);
        case ListInit =>
          if value >= 0x8000_0000 {
            events := events + [TaListInit];
          }
        case ListCont =>
          if value >= 0x8000_0000 {
            events := events + [TaListCont];
          }
        case YuvTexBase =>
          reg[offset] := value;
          events := events + [TaYuvInit];
        case SpgLoad =>
          reg[offset] := value;
          ReconfigureSpg();
        case FbRCtrl =>
          reg[offset] := value;
          ReconfigureSpg();
      }
    }

    /** The STARTRENDER hook: start the render, then mark both write
        framebuffers and note that a render was started this frame. */
    method StartRenderWrite(value: u32)
      requires Consistent()
      modifies vram, this`gotStartRender, this`events
      ensures value == 0 ==> vram[..] == old(vram[..]) && events == old(events) && gotStartRender == old(gotStartRender)
      ensures value != 0 ==> (events == old(events) + [TaStartRender] && gotStartRender
        && vram[..] == Marked(Marked(old(vram[..]), reg[FB_W_SOF1]), reg[FB_W_SOF2]))
    {
      if value == 0 {
        return;
      }
      events := events + [TaStartRender];
      MarkFramebuffer(reg[FB_W_SOF1]);
      MarkFramebuffer(reg[FB_W_SOF2]);
      gotStartRender := true;
    }
  }

  /** The outward call a triggered write hook makes. */
  function HandlerCalls(h: Handler): seq<Event>
  {
    match h
    case SoftReset => [TaSoftReset]
    case StartRender => [TaStartRender]
    case ListInit => [TaListInit]
    case ListCont => [TaListCont]
    case YuvTexBase => [TaYuvInit]
    case SpgLoad | FbRCtrl => []
  }
}
