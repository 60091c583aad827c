/** Machine words, bit fields and the small division facts the rest of the
    model leans on. Words are unbounded integers restricted to their C range;
    every mask and shift of the source is written as the division or modulus
    it stands for. */
module Bits {

  const U32_LIMIT: int := 0x1_0000_0000

  type u8 = x: int | 0 <= x < 0x100
  type u32 = x: int | 0 <= x < 0x1_0000_0000

  datatype Option<T> = None | Some(value: T)

  /** `uint32_t` plus a (possibly negative) `int`: the sum wraps modulo 2^32. */
  function Add32(a: u32, d: int): u32
  {
    (a + d) % U32_LIMIT
  }

  function Pow2(n: nat): (r: nat)
    ensures r >= 1
  {
    if n == 0 then 1 else 2 * Pow2(n - 1)
  }

  /** A bit field of a 32-bit register view: `width` bits starting at bit `shift`. */
  datatype BitField = BitField(shift: nat, width: nat)

  predicate Disjoint(f: BitField, g: BitField)
  {
    f.shift + f.width <= g.shift || g.shift + g.width <= f.shift
  }

  /** Reading a field: `(w >> shift) & ((1 << width) - 1)`. */
  function Get(w: nat, f: BitField): (r: nat)
    ensures r < Pow2(f.width)
  {
    (w / Pow2(f.shift)) % Pow2(f.width)
  }

  /** Writing a field through a bit-field view: the bits above and below the
      field are kept and the field holds `v`. */
  function Put(w: nat, f: BitField, v: nat): nat
    requires v < Pow2(f.width)
  {
    var p, q := Pow2(f.shift), Pow2(f.width);
    var m := Mul(p, q);
    DivNonneg(w, m);
    Mul(w / m, m) + Mul(v, p) + w % p
  }

  function Mul(a: nat, b: nat): (r: nat)
    ensures a > 0 && b > 0 ==> r > 0
  {
    MulPos(a, b);
    a * b
  }

  lemma MulPos(a: int, b: int)
    ensures a > 0 && b > 0 ==> a * b > 0
  {
    if a > 0 && b > 0 {
      MulLe(1, a, b);
    }
  }

  // ---------------------------------------------------------------------
  // Division facts

  /** Euclidean division is unique: dividing `q * d + r` by `d` gives back `q` and `r`. */
  lemma DivModUnique(q: int, r: int, d: int)
    requires d > 0 && 0 <= r < d
    ensures (q * d + r) / d == q && (q * d + r) % d == r
  {
    var x := q * d + r;
    var k := q - x / d;
    assert k * d == x % d - r;
    if k > 0 {
      MulLe(1, k, d);
    } else if k < 0 {
      MulLe(k, -1, d);
    }
  }

  lemma DivModSplit(w: int, d: int)
    requires d > 0
    ensures w == (w / d) * d + w % d
  {
  }

  lemma DivNonneg(w: int, d: int)
    requires w >= 0 && d > 0
    ensures w / d >= 0
  {
    NegativeMul(w / d, d);
  }

  lemma NegativeMul(k: int, d: int)
    requires d >= 0
    ensures k < 0 ==> k * d <= -d
  {
    if k < 0 {
      MulLe(k, -1, d);
    }
  }

  lemma MulSucc(a: int, b: int)
    ensures (a + 1) * b == a * b + b
  {
  }

  lemma MulLe(a: int, b: int, c: nat)
    requires a <= b
    ensures a * c <= b * c
  {
    assert b * c - a * c == (b - a) * c;
  }

  /** Adding a multiple of the divisor shifts the quotient and keeps the remainder. */
  lemma DivModShift(a: int, k: int, d: int)
    requires d > 0
    ensures (a + k * d) / d == a / d + k && (a + k * d) % d == a % d
  {
    assert a + k * d == (a / d + k) * d + a % d;
    DivModUnique(a / d + k, a % d, d);
  }

  /** The two-digit reading of `(hi * q + v) * p + lo` in base `p`, then `q`. */
  lemma Digits(hi: int, v: int, lo: int, p: int, q: int)
    requires p > 0 && q > 0 && 0 <= v < q && 0 <= lo < p
    ensures ((hi * q + v) * p + lo) / p == hi * q + v
    ensures (hi * q + v) % q == v && (hi * q + v) / q == hi
    ensures ((hi * q + v) * p + lo) / (p * q) == hi
  {
    DivModUnique(hi * q + v, lo, p);
    DivModUnique(hi, v, q);
    MulLe(v, q - 1, p);
    assert (hi * q + v) * p + lo == hi * (p * q) + (v * p + lo);
    DivModUnique(hi, v * p + lo, p * q);
  }

  /** Dividing by `m * n` is dividing by `m` and then by `n`. */
  lemma DivDiv(x: int, m: int, n: int)
    requires m > 0 && n > 0
    ensures x / (m * n) == (x / m) / n
  {
    var a := x / m;
    var hi, v, lo := a / n, a % n, x % m;
    DivModSplit(x, m);
    DivModSplit(a, n);
    assert x == (hi * n + v) * m + lo;
    Digits(hi, v, lo, m, n);
  }

  /** Reducing modulo `m * n` first does not change the remainder modulo `m`. */
  lemma ModMod(x: int, m: int, n: int)
    requires m > 0 && n > 0
    ensures (x % (m * n)) % m == x % m
  {
    var k := x / (m * n);
    assert x == x % (m * n) + k * (m * n);
    assert k * (m * n) == (k * n) * m;
    DivModShift(x % (m * n), k * n, m);
  }

  lemma {:induction false} Pow2Add(a: nat, b: nat)
    ensures Pow2(a + b) == Pow2(a) * Pow2(b)
  {
    if a > 0 {
      Pow2Add(a - 1, b);
    }
  }

  /** The powers the register views use, beyond what Dafny unfolds by itself. */
  lemma Pow2Values()
    ensures Pow2(10) == 0x400 && Pow2(11) == 0x800 && Pow2(12) == 0x1000 && Pow2(13) == 0x2000
    ensures Pow2(16) == 0x10000 && Pow2(20) == 0x100000 && Pow2(23) == 0x800000
    ensures Pow2(32) == U32_LIMIT
  {
    Pow2Add(8, 2);
    Pow2Add(8, 3);
    Pow2Add(8, 4);
    Pow2Add(8, 5);
    Pow2Add(8, 8);
    Pow2Add(16, 4);
    Pow2Add(16, 7);
    Pow2Add(16, 16);
  }

  /** Chained additions wrap like one addition of the combined offset. */
  lemma Add32Add32(a: u32, d: int, e: int)
    ensures Add32(Add32(a, d), e) == Add32(a, d + e)
  {
    var s := a + d;
    assert s == s % U32_LIMIT + (s / U32_LIMIT) * U32_LIMIT;
    DivModShift(s % U32_LIMIT + e, s / U32_LIMIT, U32_LIMIT);
  }

  /** Wrap-around never disturbs the low two bits when the offset is a multiple of 4. */
  lemma Add32Align(a: u32, d: int)
    requires d % 4 == 0
    ensures Add32(a, d) % 4 == a % 4
  {
    ModMod(a + d, 4, U32_LIMIT / 4);
    DivModShift(a, d / 4, 4);
  }

  // ---------------------------------------------------------------------
  // Bit-field views

  /** A field reads back exactly what was written into it. */
  lemma GetPut(w: nat, f: BitField, v: nat)
    requires v < Pow2(f.width)
    ensures Get(Put(w, f, v), f) == v
  {
    var p, q := Pow2(f.shift), Pow2(f.width);
    var hi, lo := w / (p * q), w % p;
    var x := Put(w, f, v);
    PutShape(w, f, v);
    assert x == (hi * q + v) * p + lo;
    DivModUnique(hi * q + v, lo, p);
    assert x / p == hi * q + v;
    DivModUnique(hi, v, q);
  }

  /** A field below `f` only sees the bits below `f`. */
  lemma GetBelow(a: nat, lo: nat, f: BitField, g: BitField)
    requires g.shift + g.width <= f.shift && lo < Pow2(f.shift)
    ensures Get(a * Pow2(f.shift) + lo, g) == Get(lo, g)
  {
    var pg, qg := Pow2(g.shift), Pow2(g.width);
    var r := Pow2(f.shift - g.shift - g.width);
    Pow2Add(g.shift, g.width);
    Pow2Add(g.shift + g.width, f.shift - g.shift - g.width);
    LowDigits(a, lo, pg, qg, r);
  }

  lemma LowDigits(a: int, lo: int, pg: int, qg: int, r: int)
    requires pg > 0 && qg > 0 && r > 0 && 0 <= lo
    ensures ((a * (pg * qg * r) + lo) / pg) % qg == (lo / pg) % qg
  {
    Rearrange(a, pg, qg, r);
    DivModShift(lo, (a * r) * qg, pg);
    DivModShift(lo / pg, a * r, qg);
  }

  lemma Rearrange(a: int, pg: int, qg: int, r: int)
    ensures a * (pg * qg * r) == ((a * r) * qg) * pg
  {
  }

  /** A field at or above the top of `f` only sees the bits above `f`. */
  lemma GetAbove(hi: nat, s: nat, f: BitField, g: BitField)
    requires f.shift + f.width <= g.shift && s < Pow2(f.shift) * Pow2(f.width)
    ensures Get(hi * (Pow2(f.shift) * Pow2(f.width)) + s, g) == Get(hi, BitField(g.shift - f.shift - f.width, g.width))
  {
    var m := Pow2(f.shift) * Pow2(f.width);
    var r := Pow2(g.shift - f.shift - f.width);
    Pow2Add(f.shift, f.width);
    Pow2Add(f.shift + f.width, g.shift - f.shift - f.width);
    HighDigits(hi, s, m, r);
  }

  lemma HighDigits(hi: int, s: int, m: int, r: int)
    requires m > 0 && r > 0 && 0 <= s < m
    ensures (hi * m + s) / (m * r) == hi / r
  {
    DivDiv(hi * m + s, m, r);
    DivModUnique(hi, s, m);
  }

  /** The two ways of reading the word `Put` builds: above the field, or from the field down. */
  lemma PutShape(w: nat, f: BitField, v: nat)
    requires v < Pow2(f.width)
    ensures var p, q := Pow2(f.shift), Pow2(f.width);
      && Put(w, f, v) == (w / (p * q)) * (p * q) + (v * p + w % p)
      && Put(w, f, v) == ((w / (p * q)) * q + v) * p + w % p
      && v * p + w % p < p * q
  {
    var p, q := Pow2(f.shift), Pow2(f.width);
    var hi := w / (p * q);
    assert Put(w, f, v) == hi * (p * q) + v * p + w % p;
    Regroup(hi, v, w % p, p, q);
  }

  lemma Regroup(hi: int, v: int, lo: int, p: int, q: int)
    requires p > 0 && 0 <= v < q && 0 <= lo < p
    ensures hi * (p * q) + v * p + lo == (hi * q + v) * p + lo
    ensures v * p + lo < p * q
  {
    MulLe(v, q - 1, p);
  }

  /** Writing one field leaves every disjoint field as it was. */
  lemma GetPutOther(w: nat, f: BitField, v: nat, g: BitField)
    requires v < Pow2(f.width) && Disjoint(f, g)
    ensures Get(Put(w, f, v), g) == Get(w, g)
  {
    if f.shift + f.width <= g.shift {
      GetPutHigher(w, f, v, g);
    } else {
      GetPutLower(w, f, v, g);
    }
  }

  lemma GetPutHigher(w: nat, f: BitField, v: nat, g: BitField)
    requires v < Pow2(f.width) && f.shift + f.width <= g.shift
    ensures Get(Put(w, f, v), g) == Get(w, g)
  {
    var p, q := Pow2(f.shift), Pow2(f.width);
    MulPos(p, q);
    var hi := w / (p * q);
    PutShape(w, f, v);
    GetAbove(hi, v * p + w % p, f, g);
    DivModSplit(w, p * q);
    GetAbove(hi, w % (p * q), f, g);
  }

  lemma GetPutLower(w: nat, f: BitField, v: nat, g: BitField)
    requires v < Pow2(f.width) && g.shift + g.width <= f.shift
    ensures Get(Put(w, f, v), g) == Get(w, g)
  {
    var p, q := Pow2(f.shift), Pow2(f.width);
    DivNonneg(w, p);
    DivNonneg(w, p * q);
    var wp: nat, lo: nat := w / p, w % p;
    DivModSplit(w, p);
    GetBelow(wp, lo, f, g);
    var a: nat := Mul(w / (p * q), q) + v;
    PutShape(w, f, v);
    GetBelow(a, lo, f, g);
  }

  /** A field write stays within the register's 32 bits. */
  lemma PutBound(w: u32, f: BitField, v: nat)
    requires v < Pow2(f.width) && f.shift + f.width <= 32
    ensures Put(w, f, v) < U32_LIMIT
  {
    var p, q := Pow2(f.shift), Pow2(f.width);
    var t := Pow2(32 - f.shift - f.width);
    Pow2Add(f.shift, f.width);
    Pow2Add(f.shift + f.width, 32 - f.shift - f.width);
    Pow2Values();
    PutShape(w, f, v);
    TopDigit(w, v * p + w % p, p * q, t);
  }

  lemma TopDigit(w: int, s: int, m: int, t: int)
    requires m > 0 && t > 0 && 0 <= w < m * t && 0 <= s < m
    ensures (w / m) * m + s < m * t
  {
    if w / m >= t {
      MulLe(t, w / m, m);
    }
    MulLe(w / m, t - 1, m);
  }
}
