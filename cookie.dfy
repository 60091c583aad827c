/** The framebuffer cookie: at STARTRENDER the start of each framebuffer the
    renderer will draw into is marked with a known word, so that at vertical
    blank a framebuffer whose start no longer holds the word is known to have
    been written by the CPU and is copied out. */
module Cookie {
  import opened Bits
  import opened Vram

  /** The line widths, bytes per pixel and line scales the marking covers. */
  const LINE_WIDTH: seq<nat> := [320, 640]
  const LINE_BPP: seq<nat> := [2, 3, 4]
  const LINE_SCALE: seq<nat> := [1, 2]

  /** Line sizes in the order the three nested loops visit them: entry
      6 * i + 2 * j + k is LINE_WIDTH[i] * LINE_BPP[j] * LINE_SCALE[k]. */
  function MarkOffset(c: nat): nat
    requires c < 12
  {
    LineSize(c / 6, (c / 2) % 3, c % 2)
  }

  /** `line_width[i] * line_bpp[j] * line_scale[k]`. */
  function LineSize(i: nat, j: nat, k: nat): nat
    requires i < 2 && j < 3 && k < 2
  {
    LINE_WIDTH[i] * LINE_BPP[j] * LINE_SCALE[k]
  }

  /** Every path address marked for a framebuffer at `addr`: the start, then
      the start of a possible second field one line size further on. */
  function MarkAddresses(addr: u32): (r: seq<u32>)
    ensures |r| == 13
    ensures r[0] == addr
  {
    [addr] + seq(12, c requires 0 <= c < 12 => Add32(addr, MarkOffset(c)))
  }

  /** The cookie stored at each of `addrs` in turn, through the 32-bit path. */
  function StoreCookies(v: seq<u8>, addrs: seq<u32>): (r: seq<u8>)
    requires |v| == VRAM_STORE
    ensures |r| == VRAM_STORE
    decreases |addrs|
  {
    if addrs == [] then v
    else PutWord(StoreCookies(v, addrs[..|addrs| - 1]), Vram64(addrs[|addrs| - 1]), COOKIE)
  }

  /** The first `n` stores of marking the framebuffer at `addr`, in the
      order the marking loops perform them. */
  function MarkedFirst(v: seq<u8>, addr: u32, n: nat): (r: seq<u8>)
    requires |v| == VRAM_STORE && n <= 13
    ensures |r| == VRAM_STORE
  {
    if n == 0 then v else PutWord(MarkedFirst(v, addr, n - 1), Vram64(MarkAddresses(addr)[n - 1]), COOKIE)
  }

  /** The first `n` stores are the cookie stores at the first `n` marked addresses. */
  lemma {:induction false} MarkedFirstAll(v: seq<u8>, addr: u32, n: nat)
    requires |v| == VRAM_STORE && n <= 13
    ensures MarkedFirst(v, addr, n) == StoreCookies(v, MarkAddresses(addr)[..n])
  {
    if n == 0 {
      assert MarkAddresses(addr)[..0] == [];
    } else {
      MarkedFirstAll(v, addr, n - 1);
      StoreCookiesStep(v, MarkAddresses(addr), n - 1);
    }
  }

  /** Bit 24 of the address: the framebuffer is being rendered as a texture. */
  predicate IsTexture(addr: u32)
  {
    (addr / 0x1000000) % 2 == 1
  }

  /** `pvr_mark_framebuffer`: video memory after marking the framebuffer at
      `addr`; a framebuffer in texture space is left alone. */
  function Marked(v: seq<u8>, addr: u32): (r: seq<u8>)
    requires |v| == VRAM_STORE
    ensures |r| == VRAM_STORE
    ensures IsTexture(addr) ==> r == v
  {
    if IsTexture(addr) then v else StoreCookies(v, MarkAddresses(addr))
  }

  /** `pvr_test_framebuffer`: the word at the framebuffer start is not the cookie. */
  predicate Dirty(v: seq<u8>, addr: u32)
    requires |v| == VRAM_STORE
  {
    Word(v, Vram64(addr)) != COOKIE
  }

  // ---------------------------------------------------------------------

  /** The offsets as the loops produce them, and the seven distinct line sizes. */
  lemma MarkOffsetValues()
    ensures forall c :: 0 <= c < 12 ==> MarkOffset(c) == OFFSET_TABLE[c]
    ensures forall c :: 0 <= c < 12 ==> MarkOffset(c) % 4 == 0
  {
    forall c | 0 <= c < 12
      ensures MarkOffset(c) == OFFSET_TABLE[c]
    {
      OffsetTable(c);
    }
  }

  /** The twelve offsets cover seven distinct line sizes. */
  lemma MarkOffsetSet()
    ensures (set c | 0 <= c < 12 :: MarkOffset(c)) == {640, 960, 1280, 1920, 2560, 3840, 5120}
  {
    MarkOffsetValues();
    var s := set c | 0 <= c < 12 :: MarkOffset(c);
    assert s == set c | 0 <= c < 12 :: OFFSET_TABLE[c];
    assert OFFSET_TABLE[0] in s && OFFSET_TABLE[1] in s && OFFSET_TABLE[2] in s && OFFSET_TABLE[3] in s;
    assert OFFSET_TABLE[5] in s && OFFSET_TABLE[9] in s && OFFSET_TABLE[11] in s;
  }

  const OFFSET_TABLE: seq<nat> := [640, 1280, 960, 1920, 1280, 2560, 1280, 2560, 1920, 3840, 2560, 5120]

  lemma OffsetTable(c: nat)
    requires c < 12
    ensures MarkOffset(c) == OFFSET_TABLE[c]
  {
  }

  /** Entry 6 * i + 2 * j + k of the offsets is the (i, j, k) line size. */
  lemma OffsetIndex(i: nat, j: nat, k: nat)
    requires i < 2 && j < 3 && k < 2
    ensures 6 * i + 2 * j + k < 12
    ensures MarkOffset(6 * i + 2 * j + k) == LineSize(i, j, k)
  {
    var c := 6 * i + 2 * j + k;
    DivModUnique(i, 2 * j + k, 6);
    DivModUnique(3 * i + j, k, 2);
    DivModUnique(i, j, 3);
  }

  /** Every line size of the three tables is marked: a framebuffer at
      `addr` whose second field starts one such line later is covered. */
  lemma MarksEveryLineSize(addr: u32, i: nat, j: nat, k: nat)
    requires i < 2 && j < 3 && k < 2
    ensures 1 + 6 * i + 2 * j + k < 13
    ensures MarkAddresses(addr)[1 + 6 * i + 2 * j + k] == Add32(addr, LineSize(i, j, k))
    ensures Add32(addr, LineSize(i, j, k)) in MarkAddresses(addr)
  {
    OffsetIndex(i, j, k);
    assert MarkAddresses(addr)[1 + 6 * i + 2 * j + k] == Add32(addr, LineSize(i, j, k));
  }

  /** One more store extends a prefix of the address list by one. */
  lemma StoreCookiesStep(v: seq<u8>, addrs: seq<u32>, m: nat)
    requires |v| == VRAM_STORE && m < |addrs|
    ensures StoreCookies(v, addrs[..m + 1]) == PutWord(StoreCookies(v, addrs[..m]), Vram64(addrs[m]), COOKIE)
  {
    assert addrs[..m + 1][..m] == addrs[..m];
  }

  /** Storing at every address of a whole prefix is storing at them all. */
  lemma StoreCookiesEnds(v: seq<u8>, addrs: seq<u32>)
    requires |v| == VRAM_STORE
    ensures StoreCookies(v, addrs[..|addrs|]) == StoreCookies(v, addrs)
  {
    assert addrs[..|addrs|] == addrs;
  }

  /** All marked addresses share the start's low two bits. */
  lemma MarkLane(addr: u32)
    ensures forall a :: a in MarkAddresses(addr) ==> a % 4 == addr % 4
  {
    MarkOffsetValues();
    forall c | 0 <= c < 12
      ensures Add32(addr, MarkOffset(c)) % 4 == addr % 4
    {
      Add32Align(addr, MarkOffset(c));
    }
  }

  /** Storing the cookie at addresses that share their low two bits leaves
      the cookie readable at every one of them: two such word stores either
      hit the same four bytes or none in common. */
  lemma {:induction false} CookiesKept(v: seq<u8>, addrs: seq<u32>, lane: nat)
    requires |v| == VRAM_STORE
    requires forall a :: a in addrs ==> a % 4 == lane
    ensures forall a :: a in addrs ==> Word(StoreCookies(v, addrs), Vram64(a)) == COOKIE
  {
    if addrs != [] {
      var init, last := addrs[..|addrs| - 1], addrs[|addrs| - 1];
      assert addrs == init + [last];
      assert forall a :: a in init ==> a in addrs;
      assert last in addrs;
      CookiesKept(v, init, lane);
      var w := StoreCookies(v, init);
      assert StoreCookies(v, addrs) == PutWord(w, Vram64(last), COOKIE);
      forall a | a in addrs
        ensures Word(PutWord(w, Vram64(last), COOKIE), Vram64(a)) == COOKIE
      {
        if a != last {
          assert a in init;
          assert Word(w, Vram64(a)) == COOKIE;
          CookieSurvives(w, a, last);
        }
      }
    }
  }

  /** A cookie store at an address of the same lane leaves a cookie in place. */
  lemma CookieSurvives(w: seq<u8>, a: u32, b: u32)
    requires |w| == VRAM_STORE && a % 4 == b % 4
    requires Word(w, Vram64(a)) == COOKIE
    ensures Word(PutWord(w, Vram64(b), COOKIE), Vram64(a)) == COOKIE
  {
    if Vram64(a) != Vram64(b) {
      SameLaneDisjoint(Vram64(a), Vram64(b));
      WordUntouched(w, Vram64(b), Vram64(a), COOKIE);
    }
  }

  /** Storing cookies changes only bytes inside the four-byte windows of the
      marked addresses. */
  lemma {:induction false} CookiesOnlyThere(v: seq<u8>, addrs: seq<u32>, j: nat)
    requires |v| == VRAM_STORE && j < VRAM_STORE
    requires forall a :: a in addrs ==> !(Vram64(a) <= j < Vram64(a) + 4)
    ensures StoreCookies(v, addrs)[j] == v[j]
  {
    if addrs != [] {
      var init := addrs[..|addrs| - 1];
      assert forall a :: a in init ==> a in addrs;
      CookiesOnlyThere(v, init, j);
    }
  }

  /** Two rounds of stores are one round over both address lists. */
  lemma {:induction false} StoreCookiesAppend(v: seq<u8>, xs: seq<u32>, ys: seq<u32>)
    requires |v| == VRAM_STORE
    ensures StoreCookies(StoreCookies(v, xs), ys) == StoreCookies(v, xs + ys)
    decreases |ys|
  {
    if ys == [] {
      assert xs + ys == xs;
    } else {
      var init, last := ys[..|ys| - 1], ys[|ys| - 1];
      assert ys == init + [last];
      assert xs + ys == (xs + init) + [last];
      StoreCookiesAppend(v, xs, init);
      StoreCookiesSnoc(StoreCookies(v, xs), init, last);
      StoreCookiesSnoc(v, xs + init, last);
    }
  }

  lemma StoreCookiesSnoc(v: seq<u8>, addrs: seq<u32>, a: u32)
    requires |v| == VRAM_STORE
    ensures StoreCookies(v, addrs + [a]) == PutWord(StoreCookies(v, addrs), Vram64(a), COOKIE)
  {
    assert (addrs + [a])[..|addrs|] == addrs;
  }

  /** After marking, the framebuffer start and every possible second-field
      start read back the cookie: a test of any of them reports clean. */
  lemma MarkedIsClean(v: seq<u8>, addr: u32)
    requires |v| == VRAM_STORE && !IsTexture(addr)
    ensures forall a :: a in MarkAddresses(addr) ==> !Dirty(Marked(v, addr), a)
  {
    MarkLane(addr);
    CookiesKept(v, MarkAddresses(addr), addr % 4);
  }

  /** Marking changes video memory only inside the cookie windows. */
  lemma MarkedOnlyThere(v: seq<u8>, addr: u32, j: nat)
    requires |v| == VRAM_STORE && j < VRAM_STORE
    requires forall a :: a in MarkAddresses(addr) ==> !(Vram64(a) <= j < Vram64(a) + 4)
    ensures Marked(v, addr)[j] == v[j]
  {
    if !IsTexture(addr) {
      CookiesOnlyThere(v, MarkAddresses(addr), j);
    }
  }

  /** STARTRENDER marks both write framebuffers in turn. When their start
      addresses share their low two bits, the second marking keeps every
      cookie of the first, so neither framebuffer tests dirty afterwards. */
  lemma BothFramebuffersClean(v: seq<u8>, sof1: u32, sof2: u32)
    requires |v| == VRAM_STORE && !IsTexture(sof1) && !IsTexture(sof2)
    requires sof1 % 4 == sof2 % 4
    ensures forall a :: a in MarkAddresses(sof1) + MarkAddresses(sof2) ==> !Dirty(Marked(Marked(v, sof1), sof2), a)
  {
    var xs, ys := MarkAddresses(sof1), MarkAddresses(sof2);
    MarkLane(sof1);
    MarkLane(sof2);
    StoreCookiesAppend(v, xs, ys);
    CookiesKept(v, xs + ys, sof1 % 4);
  }

  /** With start addresses two bytes apart the second cookie overwrites half
      of the first, and the first framebuffer tests dirty although nothing
      but the marking wrote to it. */
  lemma MisalignedMarksClash(v: seq<u8>)
    requires |v| == VRAM_STORE
    ensures Dirty(PutWord(PutWord(v, Vram64(0), COOKIE), Vram64(2), COOKIE), 0)
  {
    Vram64Zero();
    var w := PutWord(PutWord(v, 0, COOKIE), 2, COOKIE);
    assert Vram64(2) == 2;
    assert w[0] == 0xef && w[1] == 0xbe && w[2] == 0xef && w[3] == 0xbe;
  }
}
