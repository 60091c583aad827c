/** The PowerVR2 register file: the offsets of the registers this core reads
    or hooks, the bit fields of their views, and the table of write hooks.
    Offsets are the hardware register addresses (relative to the start of
    the register block) divided by four; field positions are the hardware's
    documented layouts. */
module Regs {
  import opened Bits

  /** Words in the 8 KiB register block. */
  const NUM_REGS: nat := 0x2000 / 4

  const ID: nat := 0x000 / 4
  const SOFTRESET: nat := 0x008 / 4
  const STARTRENDER: nat := 0x014 / 4
  const FB_R_CTRL: nat := 0x044 / 4
  const FB_R_SOF1: nat := 0x050 / 4
  const FB_R_SOF2: nat := 0x054 / 4
  const FB_R_SIZE: nat := 0x05c / 4
  const FB_W_SOF1: nat := 0x060 / 4
  const FB_W_SOF2: nat := 0x064 / 4
  const SPG_HBLANK_INT: nat := 0x0c8 / 4
  const SPG_VBLANK_INT: nat := 0x0cc / 4
  const SPG_CONTROL: nat := 0x0d0 / 4
  const SPG_LOAD: nat := 0x0d8 / 4
  const SPG_VBLANK: nat := 0x0dc / 4
  const VO_CONTROL: nat := 0x0e8 / 4
  const SCALER_CTL: nat := 0x0f4 / 4
  const SPG_STATUS: nat := 0x10c / 4
  const TA_LIST_INIT: nat := 0x144 / 4
  const TA_YUV_TEX_BASE: nat := 0x148 / 4
  const TA_LIST_CONT: nat := 0x160 / 4

  // FB_R_CTRL
  const FB_ENABLE := BitField(0, 1)
  const FB_DEPTH := BitField(2, 2)
  const VCLK_DIV := BitField(23, 1)
  // FB_R_SIZE, in 32-bit units
  const FB_X := BitField(0, 10)
  const FB_Y := BitField(10, 10)
  const FB_MOD := BitField(20, 10)
  // SPG_HBLANK_INT
  const LINE_COMP_VAL := BitField(0, 10)
  const HBLANK_INT_MODE := BitField(12, 2)
  // SPG_VBLANK_INT
  const VBLANK_IN_LINE := BitField(0, 10)
  const VBLANK_OUT_LINE := BitField(16, 10)
  // SPG_CONTROL
  const INTERLACE := BitField(4, 1)
  // SPG_LOAD
  const HCOUNT := BitField(0, 10)
  const VCOUNT := BitField(16, 10)
  // SPG_VBLANK
  const VBSTART := BitField(0, 10)
  const VBEND := BitField(16, 10)
  // VO_CONTROL
  const BLANK_VIDEO := BitField(3, 1)
  // SCALER_CTL
  const SCALE_Y := BitField(0, 16)
  const SCALE_X := BitField(16, 1)
  const SCALER_INTERLACE := BitField(17, 1)
  // SPG_STATUS
  const SCANLINE := BitField(0, 10)
  const FIELDNUM := BitField(10, 1)
  const VSYNC := BitField(13, 1)

  /** The side-effecting write handlers installed for a handful of registers. */
  datatype Handler = SoftReset | StartRender | ListInit | ListCont | YuvTexBase | SpgLoad | FbRCtrl

  /** The write-hook table: which handler, if any, intercepts a register. */
  function WriteHook(offset: nat): (h: Option<Handler>)
    ensures h.Some? ==> offset != ID
  {
    if offset == SOFTRESET then Some(SoftReset)
    else if offset == STARTRENDER then Some(StartRender)
    else if offset == TA_LIST_INIT then Some(ListInit)
    else if offset == TA_LIST_CONT then Some(ListCont)
    else if offset == TA_YUV_TEX_BASE then Some(YuvTexBase)
    else if offset == SPG_LOAD then Some(SpgLoad)
    else if offset == FB_R_CTRL then Some(FbRCtrl)
    else None
  }

  /** Whether a handler acts on the value written: SOFTRESET on bit 0,
      STARTRENDER on any nonzero value, the two list registers on bit 31;
      the remaining three always act. */
  predicate Triggered(h: Handler, value: u32)
  {
    match h
    case SoftReset => value % 2 == 1
    case StartRender => value != 0
    case ListInit | ListCont => value >= 0x8000_0000
    case YuvTexBase | SpgLoad | FbRCtrl => true
  }

  /** Whether a handler stores the written value into its register before acting. */
  predicate StoresValue(h: Handler)
  {
    h == YuvTexBase || h == SpgLoad || h == FbRCtrl
  }

  /** A field of a register in a snapshot of the register file. */
  function Field(regs: seq<u32>, r: nat, f: BitField): nat
    requires |regs| == NUM_REGS && r < NUM_REGS
  {
    Get(regs[r], f)
  }

  predicate Flag(regs: seq<u32>, r: nat, f: BitField)
    requires |regs| == NUM_REGS && r < NUM_REGS
  {
    Get(regs[r], f) == 1
  }
}
