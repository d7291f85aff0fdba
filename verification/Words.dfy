/** 32-bit words, their little-endian bytes, and the casts between integers and word fields. */
module Words {
  import opened Powers

  type Word = bv32
  type Byte = bv8

  // ---- Casts between integers and words ----

  function ShiftIn(w: Word, bit: bool): Word {
    (w << 1) | (if bit then 1 else 0)
  }

  /** The low `k` bits of `n` in two's complement. */
  function Bits(n: int, k: nat): Word
    decreases k, n
  {
    if k == 0 then 0 else ShiftIn(Bits(n / 2, k - 1), n % 2 == 1)
  }

  /** The cast to `u32`. */
  function ToWord(n: int): Word {
    Bits(n, 32)
  }

  /** The low `k` bits of a word as an unsigned integer. */
  function Unsigned(w: Word, k: nat): (u: nat)
    ensures u < Pow2(k)
    decreases k, w
  {
    if k == 0 then 0 else (if w & 1 == 1 then 1 else 0) + 2 * Unsigned(w >> 1, k - 1)
  }

  /** The low `k` bits of a word as a two's complement integer. */
  function Signed(w: Word, k: nat): int {
    var u := Unsigned(w, k);
    if 2 * u < Pow2(k) then u else u - Pow2(k)
  }

  /** The low `k` bits of a word are all set. */
  predicate LowOnes(w: Word, k: nat) {
    k == 0 || (w & 1 == 1 && LowOnes(w >> 1, k - 1))
  }

  lemma LowOnesValues()
    ensures LowOnes(0x3, 2) && LowOnes(0x7, 3) && LowOnes(0x1f, 5) && LowOnes(0x3f, 6) && LowOnes(0x7f, 7)
    ensures LowOnes(0x1ff, 9) && LowOnes(0xfff, 12) && LowOnes(0xffff, 16) && LowOnes(0x7_ffff, 19)
    ensures LowOnes(0x3ff_ffff, 26) && LowOnes(0x7fff_ffff, 31)
  {
    assert LowOnes(0x0, 0) && LowOnes(0x1, 1) && LowOnes(0x3, 2) && LowOnes(0x7, 3);
    assert LowOnes(0xf, 4) && LowOnes(0x1f, 5) && LowOnes(0x3f, 6) && LowOnes(0x7f, 7);
    assert LowOnes(0xff, 8) && LowOnes(0x1ff, 9) && LowOnes(0x3ff, 10) && LowOnes(0x7ff, 11);
    assert LowOnes(0xfff, 12) && LowOnes(0x1fff, 13) && LowOnes(0x3fff, 14) && LowOnes(0x7fff, 15);
    assert LowOnes(0xffff, 16) && LowOnes(0x1ffff, 17) && LowOnes(0x3ffff, 18) && LowOnes(0x7ffff, 19);
    assert LowOnes(0xfffff, 20) && LowOnes(0x1fffff, 21) && LowOnes(0x3fffff, 22) && LowOnes(0x7fffff, 23);
    assert LowOnes(0xffffff, 24) && LowOnes(0x1ffffff, 25) && LowOnes(0x3ffffff, 26) && LowOnes(0x7ffffff, 27);
    assert LowOnes(0xfffffff, 28) && LowOnes(0x1fffffff, 29) && LowOnes(0x3fffffff, 30) && LowOnes(0x7fffffff, 31);
  }

  lemma {:induction false} LowOnesFewer(w: Word, k: nat, fewer: nat)
    requires LowOnes(w, k) && fewer <= k
    ensures LowOnes(w, fewer)
    decreases k
  {
    if fewer > 0 {
      LowOnesFewer(w >> 1, k - 1, fewer - 1);
    }
  }

  lemma AndShift(a: Word, m: Word)
    ensures (a & m) >> 1 == (a >> 1) & (m >> 1)
    ensures m & 1 == 1 ==> (a & m) & 1 == a & 1
  {
  }

  /** Masking does not disturb the bits it keeps. */
  lemma {:induction false} UnsignedMasked(w: Word, m: Word, k: nat)
    requires LowOnes(m, k)
    ensures Unsigned(w & m, k) == Unsigned(w, k)
    decreases k
  {
    if k > 0 {
      UnsignedMasked(w >> 1, m >> 1, k - 1);
      AndShift(w, m);
    }
  }

  lemma ShiftInOut(w: Word, bit: bool)
    ensures (ShiftIn(w, bit) & 1 == 1) == bit && ShiftIn(w, bit) >> 1 == w & 0x7fff_ffff
  {
  }

  /** The low `k` bits of a number, as a number. */
  function LowBits(n: int, k: nat): nat
    decreases k, n
  {
    if k == 0 then 0 else n % 2 + 2 * LowBits(n / 2, k - 1)
  }

  lemma {:induction false} LowBitsFit(n: nat, k: nat)
    requires n < Pow2(k)
    ensures LowBits(n, k) == n
    decreases k
  {
    if k > 0 {
      LowBitsFit(n / 2, k - 1);
    }
  }

  lemma {:induction false} LowBitsPeriodic(n: int, k: nat)
    ensures LowBits(n + Pow2(k), k) == LowBits(n, k)
    decreases k
  {
    if k > 0 {
      LowBitsPeriodic(n / 2, k - 1);
      assert (n + Pow2(k)) / 2 == n / 2 + Pow2(k - 1);
      assert (n + Pow2(k)) % 2 == n % 2;
    }
  }

  lemma LowOnesTop(k: nat)
    requires k <= 31
    ensures LowOnes(0x7fff_ffff, k)
  {
    LowOnesValues();
    LowOnesFewer(0x7fff_ffff, 31, k);
  }

  lemma UnsignedShiftIn(w: Word, half: Word, bit: bool, k: nat)
    requires w == ShiftIn(half, bit) && 0 < k <= 32
    ensures Unsigned(w, k) == (if bit then 1 else 0) + 2 * Unsigned(half, k - 1)
  {
    ShiftInOut(half, bit);
    LowOnesTop(k - 1);
    UnsignedMasked(half, 0x7fff_ffff, k - 1);
  }

  /** The cast to a wide word keeps the low bits of the number. */
  lemma {:induction false} UnsignedBits(n: int, wide: nat, k: nat)
    requires k <= wide <= 32
    ensures Unsigned(Bits(n, wide), k) == LowBits(n, k)
    decreases k
  {
    if k > 0 {
      UnsignedBits(n / 2, wide - 1, k - 1);
      UnsignedShiftIn(Bits(n, wide), Bits(n / 2, wide - 1), n % 2 == 1, k);
    }
  }

  /** A field that holds a masked cast reads back as the number, if the number fits. */
  lemma FieldUnsigned(n: nat, m: Word, k: nat)
    requires k <= 32 && n < Pow2(k) && LowOnes(m, k)
    ensures Unsigned(ToWord(n) & m, k) == n
  {
    UnsignedMasked(ToWord(n), m, k);
    UnsignedBits(n, 32, k);
    LowBitsFit(n, k);
  }

  lemma FieldSigned(n: int, m: Word, k: nat)
    requires k <= 32 && -(Pow2(k) as int) <= 2 * n < Pow2(k) && LowOnes(m, k)
    ensures Signed(ToWord(n) & m, k) == n
  {
    UnsignedMasked(ToWord(n), m, k);
    UnsignedBits(n, 32, k);
    if n >= 0 {
      LowBitsFit(n, k);
    } else {
      LowBitsPeriodic(n, k);
      LowBitsFit(n + Pow2(k), k);
    }
  }

  // ---- Little-endian bytes ----

  function ToBytes(w: Word): (b: seq<Byte>)
    ensures |b| == 4
  {
    [(w & 0xff) as Byte, ((w >> 8) & 0xff) as Byte, ((w >> 16) & 0xff) as Byte, (w >> 24) as Byte]
  }

  function FromBytes(b: seq<Byte>): Word
    requires |b| == 4
  {
    (b[0] as Word) | ((b[1] as Word) << 8) | ((b[2] as Word) << 16) | ((b[3] as Word) << 24)
  }

  lemma BytesRoundTrip(w: Word)
    ensures FromBytes(ToBytes(w)) == w
  {
  }
}
