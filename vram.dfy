/** Video memory: two 4 MiB banks stored in the layout the 64-bit access path
    sees (the banks interleaved every 32 bits), the translation a 32-bit path
    address goes through, and little-endian word access. */
module Vram {
  import opened Bits

  const BANK_SIZE: nat := 0x400000
  const VRAM_SIZE: nat := 0x800000

  /** Bytes the model keeps: the 8 MiB store plus the three bytes that a
      word or pixel access at an unaligned address in the very last word
      reaches past its end. */
  const VRAM_STORE: nat := VRAM_SIZE + 3

  /** `VRAM64`: the canonical (interleaved) offset of a 32-bit path address.
      The three terms occupy disjoint bits, so the C `|` is a sum:
      `(offset & ~3) << 1`, then `bank >> 20` (bit 22 moved to bit 2), then
      `offset & 3`. */
  function Vram64(addr32: u32): (r: nat)
    ensures r < VRAM_SIZE
    ensures r % 4 == addr32 % 4
  {
    var bank := if (addr32 / BANK_SIZE) % 2 == 1 then BANK_SIZE else 0;
    var offset := addr32 % BANK_SIZE;
    ModMod(addr32, 4, BANK_SIZE / 4);
    (offset - offset % 4) * 2 + bank / 0x100000 + offset % 4
  }

  /** The inverse translation, from a canonical offset back to the 32-bit
      path address inside the 8 MiB window. */
  function Vram32(addr64: nat): (r: nat)
    requires addr64 < VRAM_SIZE
    ensures r < VRAM_SIZE
  {
    (addr64 / 8) * 4 + addr64 % 4 + (if (addr64 / 4) % 2 == 1 then BANK_SIZE else 0)
  }

  /** Bits 23 and up of a 32-bit path address are ignored. */
  lemma Vram64Window(addr32: u32)
    ensures Vram64(addr32) == Vram64(addr32 % VRAM_SIZE)
  {
    var low := addr32 % VRAM_SIZE;
    ModMod(addr32, BANK_SIZE, 2);
    DivModShift(low, addr32 / VRAM_SIZE, VRAM_SIZE);
    assert addr32 == low + (addr32 / VRAM_SIZE) * VRAM_SIZE;
    DivModShift(low, 2 * (addr32 / VRAM_SIZE), BANK_SIZE);
    DivModShift(low / BANK_SIZE, addr32 / VRAM_SIZE, 2);
  }

  /** Translating and translating back gives the address within the window. */
  lemma Vram64RoundTrip(addr32: u32)
    requires addr32 < VRAM_SIZE
    ensures Vram32(Vram64(addr32)) == addr32
  {
    var h, o := addr32 / BANK_SIZE, addr32 % BANK_SIZE;
    var k, l := o / 4, o % 4;
    DivModSplit(addr32, BANK_SIZE);
    DivModSplit(o, 4);
    assert h < 2;
    var b := 8 * k + 4 * h + l;
    assert Vram64(addr32) == b;
    DivModUnique(k, 4 * h + l, 8);
    DivModUnique(2 * k + h, l, 4);
    DivModUnique(k, h, 2);
  }

  /** Every canonical offset is reached: the translation is onto the store. */
  lemma Vram32RoundTrip(addr64: nat)
    requires addr64 < VRAM_SIZE
    ensures Vram64(Vram32(addr64)) == addr64
  {
    var k, r := addr64 / 8, addr64 % 8;
    var h, l := r / 4, r % 4;
    DivModSplit(addr64, 8);
    DivModSplit(r, 4);
    DivModUnique(2 * k + h, l, 4);
    DivModUnique(k, h, 2);
    var a := 4 * k + l + h * BANK_SIZE;
    assert Vram32(addr64) == a;
    DivModUnique(h, 4 * k + l, BANK_SIZE);
    DivModUnique(k, l, 4);
  }

  /** Two addresses reach the same canonical offset only when they agree
      below bit 23: on the 8 MiB window the translation is a bijection. */
  lemma Vram64Injective(a: u32, b: u32)
    ensures Vram64(a) == Vram64(b) <==> a % VRAM_SIZE == b % VRAM_SIZE
  {
    Vram64Window(a);
    Vram64Window(b);
    Vram64RoundTrip(a % VRAM_SIZE);
    Vram64RoundTrip(b % VRAM_SIZE);
  }

  /** The same offset in the second bank lands 4 bytes further on: the banks
      alternate every 32-bit word, and they differ only in bit 2. */
  lemma Vram64Banks(addr32: u32)
    requires addr32 < BANK_SIZE
    ensures Vram64(addr32 + BANK_SIZE) == Vram64(addr32) + 4
    ensures (Vram64(addr32) / 4) % 2 == 0
  {
    DivModUnique(1, addr32, BANK_SIZE);
    DivModUnique(0, addr32, BANK_SIZE);
    var k, l := addr32 / 4, addr32 % 4;
    DivModSplit(addr32, 4);
    assert Vram64(addr32) == (2 * k) * 4 + l;
    DivModUnique(2 * k, l, 4);
    DivModUnique(k, 0, 2);
  }

  lemma Vram64Zero()
    ensures Vram64(0) == 0
  {
  }

  // ---------------------------------------------------------------------
  // Words

  const COOKIE: u32 := 0xdeadbeef

  /** The little-endian 32-bit word at byte `i` (`*(uint32_t *)&vram[i]`). */
  function Word(v: seq<u8>, i: nat): u32
    requires i + 4 <= |v|
  {
    v[i] as int + 0x100 * v[i + 1] as int + 0x10000 * v[i + 2] as int + 0x1000000 * v[i + 3] as int
  }

  /** Storing the little-endian word `w` at byte `i`: the word reads back and
      every byte outside the four it covers is kept. */
  function PutWord(v: seq<u8>, i: nat, w: u32): (r: seq<u8>)
    requires i + 4 <= |v|
    ensures |r| == |v|
    ensures Word(r, i) == w
    ensures forall j :: 0 <= j < |v| && !(i <= j < i + 4) ==> r[j] == v[j]
  {
    var b0, b1, b2, b3 := w % 0x100, (w / 0x100) % 0x100, (w / 0x10000) % 0x100, w / 0x1000000;
    WordBytes(w);
    v[i := b0][i + 1 := b1][i + 2 := b2][i + 3 := b3]
  }

  lemma WordBytes(w: u32)
    ensures w % 0x100 + 0x100 * ((w / 0x100) % 0x100) + 0x10000 * ((w / 0x10000) % 0x100)
      + 0x1000000 * (w / 0x1000000) == w
    ensures w / 0x1000000 < 0x100
  {
    DivDiv(w, 0x100, 0x100);
    DivDiv(w, 0x10000, 0x100);
    DivModSplit(w, 0x100);
    DivModSplit(w / 0x100, 0x100);
    DivModSplit(w / 0x10000, 0x100);
  }

  /** A word store leaves every word it does not overlap unchanged. */
  lemma WordUntouched(v: seq<u8>, i: nat, j: nat, w: u32)
    requires i + 4 <= |v| && j + 4 <= |v|
    requires j + 4 <= i || i + 4 <= j
    ensures Word(PutWord(v, i, w), j) == Word(v, j)
  {
    var r := PutWord(v, i, w);
    assert r[j] == v[j] && r[j + 1] == v[j + 1] && r[j + 2] == v[j + 2] && r[j + 3] == v[j + 3];
  }

  /** Two word offsets with the same low two bits either coincide or do not overlap. */
  lemma SameLaneDisjoint(i: nat, j: nat)
    requires i % 4 == j % 4 && i != j
    ensures j + 4 <= i || i + 4 <= j
  {
    DivModSplit(i, 4);
    DivModSplit(j, 4);
  }

  /** Through the 32-bit path, a word store is never seen by a word load at
      another address of the 8 MiB window with the same alignment. */
  lemma Vram32StoresSeparate(v: seq<u8>, a: u32, b: u32, w: u32)
    requires |v| == VRAM_STORE
    requires a % 4 == b % 4 && a % VRAM_SIZE != b % VRAM_SIZE
    ensures Word(PutWord(v, Vram64(a), w), Vram64(b)) == Word(v, Vram64(b))
  {
    Vram64Injective(a, b);
    SameLaneDisjoint(Vram64(a), Vram64(b));
    WordUntouched(v, Vram64(a), Vram64(b), w);
  }
}
