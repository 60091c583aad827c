# PowerVR2 video output, modelled in Dafny

This project models the video-output half of the Dreamcast's PowerVR2 graphics
chip as the emulator in `src/guest/pvr/pvr.c` implements it, and proves what
that code promises. It covers:

- **Video memory.** Two 4 MiB banks are stored in the interleaved layout that
  the 64-bit access path sees. `VRAM64` translates a 32-bit-path address into
  that layout. Both paths read and write little-endian words.
- **Framebuffer geometry.** The framebuffer size follows from FB_R_SIZE, the
  pixel depth and interlacing. The game's original video size follows from
  the scaler settings.
- **The dirty-framebuffer cookie scheme.** STARTRENDER writes `0xdeadbeef` at
  the start of each write framebuffer and at twelve derived line offsets. At
  vertical blank the start of the read framebuffer is tested for that cookie.
  When it is missing, the CPU drew the frame, and the frame is decoded from
  one of four pixel formats into a packed 24-bit RGB buffer. Two fields are
  interleaved line by line, and the result is handed to the video output.
- **The scanline state machine.** On each line-timer tick the device advances
  the line counter modulo `vcount + 1`. It then raises the hblank, vblank-in
  and vblank-out interrupts, stores the vsync level and scanline in
  SPG_STATUS, and on a vsync edge runs vblank-in (field flip, copy-out) or
  vblank-out. Finally it restarts the line timer.
- **Sync-pulse-generator reconfiguration.** The integer line clock is
  recomputed, and the single line timer is restarted at that rate.
- **Register access.** Writes to the read-only ID register are dropped.
  Writes to the seven hooked registers go to their handlers. Any other write
  stores the value.

The modules follow the structure of the code:

- `Bits`: integer views of register bit fields and 32-bit wrap-around.
- `Vram`: the `VRAM64` translation and word access.
- `Regs`: register offsets, field layouts and the write-hook table.
- `Timing`: the line clock, line counter, vsync level and hblank condition.
- `Frame`: framebuffer sizes, pixel decoding, and where each output pixel
  comes from.
- `Cookie`: the marking and testing of framebuffers.
- `PowerVR`: the device itself. It is the class `Pvr`, whose arrays hold
  video memory, the register words and the RGB output buffer.

The pure parts (`VRAM64`, `pvr_framebuffer_size`, `pvr_video_size`, the vsync
level) are functions with lemmas. The parts that change state are methods of
`Pvr`. The decode loops and the marking loops carry invariants. Every
method's ensures gives its new state, in terms of a specification function
of the old state. The device's calls into the rest of the console are
recorded, in order, in a ghost event log: the tile accelerator, the
interrupt controller, `dc_push_pixels`, `dc_vblank_in` and `dc_vblank_out`. The scheduler is a ghost count of
pending line timers plus the rate of the last one started. `LOG_FATAL` is an
`Outcome.Fatal` result.

The bank bit of a 32-bit-path address (bit 22) lands in bit 2 of the
canonical offset, because the code shifts it right by 20. The banks
therefore alternate every 32-bit word.

At depth 2 (24-bit RGB) the two halves of the code disagree about the line
width. `pvr_framebuffer_size` reports 4(x + 1)/3 pixels, rounded down. The
decode loop steps 3 bytes at a time through 4(x + 1) bytes, so it writes that
many pixels rounded up. The two agree exactly when x + 1 is a multiple of 3.
`Frame.LineWidth` and `Frame.PixelCountMatchesSize` state this.

## Model

| member | source | states |
|---|---|---|
| Vram.Vram64 | src/guest/pvr/pvr.c:25-30 | the canonical offset lies inside the 8 MiB store and keeps the address's low two bits |
| Vram.Vram64Window | src/guest/pvr/pvr.c:25-30 | bits 23 and above of the address are ignored |
| Vram.Vram64RoundTrip | src/guest/pvr/pvr.c:25-30 | on the 8 MiB window the inverse translation undoes `VRAM64` |
| Vram.Vram32RoundTrip | src/guest/pvr/pvr.c:25-30 | every canonical offset is reached, so the map is onto the store |
| Vram.Vram64Injective | src/guest/pvr/pvr.c:25-30 | two addresses translate alike exactly when they agree below bit 23 |
| Vram.Vram64Banks | src/guest/pvr/pvr.c:25-30 | the same offset in the second bank lands 4 bytes further on; the first bank's offsets have bit 2 clear |
| Vram.Vram64Zero | src/guest/pvr/pvr.c:25-30 | address 0 translates to offset 0 |
| Vram.Word | src/guest/pvr/pvr.c:75 | the little-endian 32-bit word at a byte offset; PutWord states that a store reads back |
| Vram.PutWord | src/guest/pvr/pvr.c:85 | a little-endian word store reads back as the stored word and keeps every other byte |
| Vram.Vram32StoresSeparate | src/guest/pvr/pvr.c:341-350 | a 32-bit-path word store is never seen by a same-aligned load at another window address |
| Regs.WriteHook | src/guest/pvr/pvr.c:433-504 | no write hook is installed on the ID register |
| Regs.Triggered | src/guest/pvr/pvr.c:433-504 | when a handler acts: SOFTRESET on bit 0, STARTRENDER on a nonzero value, the two list registers on bit 31, the other three always |
| Regs.StoresValue | src/guest/pvr/pvr.c:481-504 | exactly TA_YUV_TEX_BASE, SPG_LOAD and FB_R_CTRL store the written value before acting |
| Timing.PixelClock | src/guest/pvr/pvr.c:289-292 | the pixel clock is a positive multiple of 13.5 MHz, above it exactly when vclk_div is set |
| Timing.LineClock | src/guest/pvr/pvr.c:287-297 | the line clock is a multiple of the interlace factor s (2 when interlaced, else 1), and r lines of hcount + 1 clocks fit in s times the pixel clock while r + s do not |
| Timing.LineClockRate | src/guest/pvr/pvr.c:287-297 | conversely, any rate that is a multiple of s and meets those bounds is the line clock: the pixel clock over hcount + 1, rounded down, then doubled when interlaced |
| Timing.LineClockPositive | src/guest/pvr/pvr.c:287-297 | for a 10-bit hcount the line clock is positive |
| Timing.NextLine | src/guest/pvr/pvr.c:235-236 | the next line is at most vcount; it is line + 1 below vcount and wraps to 0 at vcount |
| Timing.VsyncLevel | src/guest/pvr/pvr.c:264-270 | the vsync level: inside [vbstart, vbend), or outside [vbend, vbstart) when the window wraps; a predicate whose properties the next three lemmas state |
| Timing.VsyncAlwaysWhenEqual | src/guest/pvr/pvr.c:264-270 | with vbstart == vbend the vsync level is always high |
| Timing.VsyncWrapped | src/guest/pvr/pvr.c:267-270 | with vbend < vbstart, vsync is high exactly outside [vbend, vbstart) |
| Timing.OneEdgeEachPerFrame | src/guest/pvr/pvr.c:263-277 | stepping the line counter, vsync rises exactly on entering vbstart and falls exactly on entering vbend |
| Timing.HblankRaises | src/guest/pvr/pvr.c:239-251 | modes other than 0 and 2 are fatal; the interrupt is raised exactly in mode 2 or in mode 0 on line_comp_val |
| Frame.FormatOf | src/guest/pvr/pvr.c:193-196 | a depth is unsupported (fatal) exactly when it is above 3 |
| Frame.FramebufferSize | src/guest/pvr/pvr.c:51-72 | the width is the number of whole pixels of the depth in (x + 1) 32-bit units (x + 1 for an unknown depth); the height is y + 1, doubled exactly when interlaced |
| Frame.VideoSize | src/guest/pvr/pvr.c:394-420 | the width doubles under scale_x; the height is the framebuffer height times scale_y / 1024, rounded down, and halved for flicker-free interlacing |
| Frame.VideoSizeNeutral | src/guest/pvr/pvr.c:394-420 | the neutral scaler (scale_y 0x400, no flags) gives back the framebuffer size |
| Frame.VideoSizeFlickerFree | src/guest/pvr/pvr.c:413-419 | flicker-free interlacing with scale_y 0x800 cancels out in the height |
| Frame.Steps | src/guest/pvr/pvr.c:135 | iterations of the pixel loop, x_size over bytes-per-pixel rounded up; StepsExact states it |
| Frame.PixelsPerLine | src/guest/pvr/pvr.c:126-135 | pixels decoded from one line of one field; every line has at least one |
| Frame.StepsExact | src/guest/pvr/pvr.c:135 | the pixel loop's test `x < x_size` holds for exactly the first Steps(x_size) iterations |
| Frame.PixelSource | src/guest/pvr/pvr.c:133-145 | the 32-bit-path address output pixel p is read from, in closed form; PixelSourceAt, PixelSourceNext and PixelSourceNextLine tie it to the loops |
| Frame.PixelSourceAt | src/guest/pvr/pvr.c:133-145 | output row `r` is line `r / num_fields` of field `r % num_fields`, and its pixel `i` is read from the field start plus one row advance per line plus `i` pixel steps |
| Frame.PixelSourceNext | src/guest/pvr/pvr.c:140 | within a line the field pointer moves by bytes-per-pixel |
| Frame.PixelSourceNextLine | src/guest/pvr/pvr.c:140-143 | from a line's last pixel to the same field's next line the pointer moves by bytes-per-pixel plus `(mod << 2) - 4` |
| Frame.NextRowStart | src/guest/pvr/pvr.c:140-143 | after a line and line_mod the field pointer is the start of the field's next line |
| Frame.PixelCountMatchesSize | src/guest/pvr/pvr.c:104-203 | for the 16- and 32-bit depths the loops write exactly width x height pixels; for 24-bit only when x + 1 is a multiple of 3 |
| Frame.LineWidth | src/guest/pvr/pvr.c:126-135 | pixels per line equal the reported width for 16/32-bit, for 24-bit exactly when x + 1 is a multiple of 3, and never exceed it by more than one |
| Frame.FrameFits | src/guest/pvr/pvr.c:121-192 | every 10-bit FB_R_SIZE fits the output buffer |
| Frame.DecodePixel | src/guest/pvr/pvr.c:136-185 | each format's pixel becomes three bytes, R, G, B; WidenedChannels and the next four lemmas state what those bytes are |
| Frame.WidenedChannels | src/guest/pvr/pvr.c:136-155 | the 16-bit formats widen each channel by a shift: the low three bits of every byte are zero, two for RGB565 green |
| Frame.Argb1555Faithful | src/guest/pvr/pvr.c:136-139 | two ARGB1555 pixels decode alike exactly when their low 15 bits agree |
| Frame.Rgb565Faithful | src/guest/pvr/pvr.c:152-155 | two RGB565 pixels decode alike exactly when they are equal |
| Frame.Rgb565Primaries | src/guest/pvr/pvr.c:152-155 | 0xF800 decodes to (248, 0, 0) and 0x07E0 to (0, 252, 0) |
| Frame.PackedFormatsCopy | src/guest/pvr/pvr.c:166-190 | the 24- and 32-bit depths emit bytes 2, 1, 0, and the fourth byte never reaches the output |
| Cookie.MarkAddresses | src/guest/pvr/pvr.c:85-101 | thirteen addresses are marked, the first being the framebuffer start |
| Cookie.StoreCookies | src/guest/pvr/pvr.c:85-98 | the cookie stored through the 32-bit path at each address in turn, in order; memory keeps its size |
| Cookie.MarkedFirst | src/guest/pvr/pvr.c:85-98 | the first n stores of the marking loops, in loop order; MarkedFirstAll equates them with StoreCookies of the first n addresses |
| Cookie.IsTexture | src/guest/pvr/pvr.c:81 | bit 24 of the address: the framebuffer lies in texture space |
| Cookie.Dirty | src/guest/pvr/pvr.c:74-77 | the word at the translated framebuffer start is not the cookie; MarkedIsClean and MisalignedMarksClash are about it |
| Cookie.Marked | src/guest/pvr/pvr.c:79-83 | a framebuffer with bit 24 set leaves video memory unchanged |
| Cookie.MarkOffsetSet | src/guest/pvr/pvr.c:90-97 | the twelve line offsets take exactly the seven values 640, 960, 1280, 1920, 2560, 3840, 5120 |
| Cookie.MarksEveryLineSize | src/guest/pvr/pvr.c:94-99 | the address one (width, bpp, scale) line past the start is among those marked |
| Cookie.MarkedIsClean | src/guest/pvr/pvr.c:74-102 | after marking, the test reports every marked address clean |
| Cookie.MarkedOnlyThere | src/guest/pvr/pvr.c:79-102 | a byte outside the marked words is unchanged |
| Cookie.BothFramebuffersClean | src/guest/pvr/pvr.c:454-455 | after marking both write framebuffers with the same alignment, all 26 marked addresses test clean |
| Cookie.MisalignedMarksClash | src/guest/pvr/pvr.c:85-98 | a cookie stored 2 bytes after another overwrites it, so the first address then tests dirty |
| PowerVR.NextField | src/guest/pvr/pvr.c:220-225 | the next field number is 0 or 1; it differs from the current one when interlaced and is 0 otherwise |
| PowerVR.VideoSizeOf | src/guest/pvr/pvr.c:394-420 | `pvr_video_size` of the registers: the framebuffer width doubles exactly under scale_x, and a neutral scaler gives back the framebuffer size |
| PowerVR.StatusTick | src/guest/pvr/pvr.c:263-271 | storing vsync and scanline sets those fields, keeps fieldnum and every bit outside the three fields |
| PowerVR.StatusFlip | src/guest/pvr/pvr.c:220-225 | flipping fieldnum after the tick keeps the stored scanline, vsync and all other bits |
| PowerVR.Pvr.constructor | src/guest/pvr/pvr.c:322-339 | registers hold their defaults, video memory is the console's, the line clock is that of the defaults and one line timer is pending |
| PowerVR.Pvr.ReconfigureSpg | src/guest/pvr/pvr.c:284-320 | the line clock is recomputed from the registers and exactly one line timer is pending, at that rate |
| PowerVR.Pvr.UpdateLineClock | src/guest/pvr/pvr.c:287-297 | the line clock equals the line-clock function of the registers and is positive |
| PowerVR.Pvr.Vram32Read | src/guest/pvr/pvr.c:347-350 | a 32-bit-path read returns the word at the translated offset |
| PowerVR.Pvr.Vram32Write | src/guest/pvr/pvr.c:341-345 | a 32-bit-path write stores the word at the translated offset, nothing else |
| PowerVR.Pvr.Vram64Read | src/guest/pvr/pvr.c:357-362 | a 64-bit-path read returns the word at the offset itself |
| PowerVR.Pvr.Vram64Write | src/guest/pvr/pvr.c:352-355 | a 64-bit-path write stores the word at the offset itself, nothing else |
| PowerVR.Pvr.TestFramebuffer | src/guest/pvr/pvr.c:74-77 | dirty exactly when the word at the translated start is not the cookie |
| PowerVR.Pvr.MarkFramebuffer | src/guest/pvr/pvr.c:79-102 | video memory becomes the marked memory of the specification |
| PowerVR.Pvr.MarkWidth | src/guest/pvr/pvr.c:94-101 | one line width's loops perform the next six cookie stores in order |
| PowerVR.Pvr.MarkDepth | src/guest/pvr/pvr.c:95-100 | one depth's scale loop performs the next two cookie stores in order |
| PowerVR.Pvr.DecodeLine | src/guest/pvr/pvr.c:135-142 | the pixel loop writes each decoded pixel of the line in turn, keeps every other byte, and leaves the field pointer one line of pixels on |
| PowerVR.Pvr.CopyPixel | src/guest/pvr/pvr.c:136-141 | one pixel is decoded and written, extending the line by one |
| PowerVR.Pvr.DecodeRow | src/guest/pvr/pvr.c:134-144 | one line of every field is decoded into consecutive output rows, and each field pointer moves to its next line |
| PowerVR.Pvr.DecodeFrame | src/guest/pvr/pvr.c:131-192 | the output buffer holds the whole decoded frame: pixel `p` is the decoded source pixel of `p` |
| PowerVR.Pvr.UpdateFramebuffer | src/guest/pvr/pvr.c:104-203 | nothing happens unless fb_enable is set and the current field's start is dirty; otherwise the size is set, the frame decoded and the pixels pushed |
| PowerVR.Pvr.VblankIn | src/guest/pvr/pvr.c:209-228 | a pending STARTRENDER flag is cleared instead of a copy-out; fieldnum flips when interlaced and is 0 otherwise; vblank-in is signalled with blank_video |
| PowerVR.Pvr.VblankOut | src/guest/pvr/pvr.c:205-207 | vblank-out is signalled |
| PowerVR.Pvr.NextScanline | src/guest/pvr/pvr.c:230-282 | the line advances; an unsupported hblank mode is fatal; otherwise the interrupts, SPG_STATUS, the vsync edge actions and the flag are as specified and one line timer is pending again |
| PowerVR.Pvr.TickStatus | src/guest/pvr/pvr.c:263-277 | SPG_STATUS is updated, vblank-in runs only on a rising edge and vblank-out only on a falling one |
| PowerVR.Pvr.AdvanceLine | src/guest/pvr/pvr.c:235-236 | the line counter steps modulo vcount + 1 |
| PowerVR.Pvr.RaiseLineInterrupts | src/guest/pvr/pvr.c:238-261 | fatal exactly for an unsupported hblank mode; otherwise hblank, vblank-in and vblank-out are raised in that order on their conditions |
| PowerVR.Pvr.UpdateStatus | src/guest/pvr/pvr.c:263-271 | returns the old and new vsync levels; only SPG_STATUS changes, holding the line, the new level and the old field |
| PowerVR.Pvr.RegRead | src/guest/pvr/pvr.c:383-392 | a read returns the register word |
| PowerVR.Pvr.RegWrite | src/guest/pvr/pvr.c:364-381 | ID is never written; an unhooked register stores the value; a hooked one stores it only for the three storing handlers and calls its handler when triggered |
| PowerVR.Pvr.RunHandler | src/guest/pvr/pvr.c:433-504 | each handler's trigger, store and call: bit 0, nonzero, bit 31 or always; TA_YUV_TEX_BASE, SPG_LOAD and FB_R_CTRL store first, the last two then reconfigure |
| PowerVR.Pvr.StartRenderWrite | src/guest/pvr/pvr.c:444-457 | a zero write changes nothing; otherwise the render starts, both write framebuffers are marked and the flag is set |

## Left out

- Scheduler internals (`sched_start_timer`, `sched_cancel_timer`, `HZ_TO_NANO`) are not modelled. They are replaced by a ghost count of pending line timers and the rate of the last timer started.
- The calls into the rest of the console (`ta_*`, `holly_raise_interrupt`, `dc_push_pixels`, `dc_vblank_in`, `dc_vblank_out`) are foreign code. They are recorded as events without modelling their behaviour.
- `LOG_FATAL` is modelled as an `Outcome.Fatal` result, not as a process abort. `LOG_INFO` and the NTSC/PAL/VGA mode string exist only for logging and are left out. So is `prof_counter_add`.
- `pvr_create`, `pvr_destroy` and the device registration are lifecycle glue and are left out.
- `pvr_regs.inc` and `pvr_types.h` are not part of this model. The reset values come in as a constructor parameter. The register offsets and field positions are those of the hardware register map.
- The `READ_DATA`/`WRITE_DATA` masked partial-width access is not part of this model. `PowerVR.Pvr.Vram32Read`, `PowerVR.Pvr.Vram32Write`, `PowerVR.Pvr.Vram64Read`, `PowerVR.Pvr.Vram64Write` and `PowerVR.Pvr.RegWrite` move whole 32-bit words, and the mask is ignored.
- The model's video memory has three bytes beyond the 8 MiB store. An unaligned word or pixel access in the very last word reads or writes past the end of the array, into whatever the host has there, and those bytes stand in for it.
- The host is taken to be little-endian, as the casts `*(uint32_t *)` and `*(uint16_t *)` require.
- The `default:` case of the depth switch cannot be reached, because fb_depth is a two-bit field. Its fatal outcome is stated on `Frame.FormatOf`, the depth-to-format map.
- The output buffer belongs to `struct pvr` in `guest/pvr/pvr.h`, which is not part of this model, so its size is not known here. The model's buffer holds the largest frame a 10-bit FB_R_SIZE can describe, so no buffer-size precondition is needed. `Frame.FrameFits` is about the model's buffer.
- PowerVR.Pvr.Vram64Read: requires `addr < VRAM_SIZE`, where `vram[addr]` in the code is unchecked. The memory bus only hands in offsets inside the 8 MiB store.
- PowerVR.Pvr.Vram64Write: requires `addr < VRAM_SIZE` for the same reason.
