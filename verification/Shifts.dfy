/** Shifts by an immediate amount, as bitfield moves. */
module Shifts {
  import opened Powers
  import opened Instructions
  import opened Machine
  import Modular

  function DatasizeBits(sf: Datasize): (bits: nat)
    ensures bits == 32 || bits == 64
  {
    if sf == D64 then 64 else 32
  }

  /** The mask of the amount keeps it below the size. */
  function LslImm(sf: Datasize, rd: RegisterID, rn: RegisterID, shift: nat): Instr
    requires shift < DatasizeBits(sf)
  {
    Bitfield(sf, Ubfm, rd, rn, (DatasizeBits(sf) - shift) % DatasizeBits(sf), DatasizeBits(sf) - 1 - shift)
  }

  function LsrImm(sf: Datasize, rd: RegisterID, rn: RegisterID, shift: nat): Instr {
    Bitfield(sf, Ubfm, rd, rn, shift, DatasizeBits(sf) - 1)
  }

  function AsrImm(sf: Datasize, rd: RegisterID, rn: RegisterID, shift: nat): Instr {
    Bitfield(sf, Sbfm, rd, rn, shift, DatasizeBits(sf) - 1)
  }

  // ---- Powers ----

  lemma {:induction false} Pow2Sum(a: nat, b: nat)
    ensures Pow2(a + b) == Pow2(a) * Pow2(b)
  {
    if a > 0 {
      Pow2Sum(a - 1, b);
      assert Pow2(a) * Pow2(b) == 2 * (Pow2(a - 1) * Pow2(b));
    }
  }

  lemma ModulusIsPower(sf: Datasize)
    ensures Pow2(DatasizeBits(sf)) == Modulus(sf)
  {
    Pow2Values();
    Pow2Sum(32, 32);
  }

  lemma Scaled(r: nat, u: nat, p: nat)
    requires r < p && u > 0
    ensures r * u < p * u
  {
  }

  lemma Distributed(q: nat, p: nat, r: nat, u: nat)
    ensures (q * p + r) * u == q * (p * u) + r * u
  {
  }

  lemma ScaledRemainder(x: nat, q: nat, p: nat, r: nat, u: nat)
    requires x == q * p + r && r < p && u > 0
    ensures 0 < p * u && r * u == x * u % (p * u)
  {
    Distributed(q, p, r, u);
    Scaled(r, u, p);
    Modular.WrapOnce(x * u, q, p * u);
  }

  lemma Division(x: nat, p: nat)
    requires p > 0
    ensures x == x / p * p + x % p && 0 <= x / p && 0 <= x % p < p
  {
    Modular.Multiple(x / p, p);
  }

  lemma KeptField(x: nat, k: nat, n: nat)
    requires k <= n
    ensures x % Pow2(n - k) * Pow2(k) == x * Pow2(k) % Pow2(n)
  {
    var p, u := Pow2(n - k), Pow2(k);
    assert Pow2(n) == p * u by {
      Pow2Sum(n - k, k);
    }
    Division(x, p);
    ScaledRemainder(x, x / p, p, x % p, u);
  }

  lemma AtLeast(q: nat, u: nat)
    requires u > 0
    ensures q <= q * u
  {
  }

  lemma Shrinks(x: nat, u: nat)
    requires u > 0
    ensures x / u <= x
  {
    AtLeast(x / u, u);
    assert x == x / u * u + x % u;
  }

  // ---- Meaning ----

  lemma FieldUp(x: nat, immr: nat, imms: nat, bits: nat)
    requires imms < immr < bits
    ensures MovedField(Ubfm, x, immr, imms, bits) == x % Pow2(imms + 1) * Pow2(bits - immr)
  {
  }

  lemma FieldDown(op: BitfieldOp, x: nat, immr: nat, bits: nat)
    requires immr < bits && x < Pow2(bits)
    ensures MovedField(op, x, immr, bits - 1, bits) == (if op == Sbfm then SInt(x, Pow2(bits)) else x) / Pow2(immr)
  {
    Modular.Wrap(x, Pow2(bits));
  }

  lemma ExecBitfield(s: State, sf: Datasize, op: BitfieldOp, rd: RegisterID, rn: RegisterID, immr: nat, imms: nat,
                     moved: int)
    requires immr < DatasizeBits(sf) && imms < DatasizeBits(sf)
    requires moved == MovedField(op, s.Get(sf, rn), immr, imms, DatasizeBits(sf))
    ensures Exec(s, Bitfield(sf, op, rd, rn, immr, imms)) == s.SetX(rd, moved % Modulus(sf))
  {
  }

  lemma LslField(x: nat, shift: nat, bits: nat)
    requires shift < bits && x < Pow2(bits)
    ensures MovedField(Ubfm, x, (bits - shift) % bits, bits - 1 - shift, bits) == x * Pow2(shift) % Pow2(bits)
  {
    if shift == 0 {
      Modular.WrapOnce(bits, 1, bits);
      FieldDown(Ubfm, x, 0, bits);
      assert Pow2(0) == 1;
      Modular.Wrap(x, Pow2(bits));
    } else {
      Modular.Wrap(bits - shift, bits);
      FieldUp(x, bits - shift, bits - 1 - shift, bits);
      KeptField(x, shift, bits);
    }
  }

  /** A left shift by any masked amount, 0 included. */
  lemma LslMeaning(s: State, sf: Datasize, rd: RegisterID, rn: RegisterID, shift: nat)
    requires shift < DatasizeBits(sf)
    ensures Exec(s, LslImm(sf, rd, rn, shift)) == s.SetX(rd, s.Get(sf, rn) * Pow2(shift) % Modulus(sf))
  {
    var bits := DatasizeBits(sf);
    var moved := LslMoved(sf, s.Get(sf, rn), shift);
    ExecBitfield(s, sf, Ubfm, rd, rn, (bits - shift) % bits, bits - 1 - shift, moved);
    Modular.Wrap(moved, Modulus(sf));
  }

  lemma LslMoved(sf: Datasize, x: nat, shift: nat) returns (moved: nat)
    requires shift < DatasizeBits(sf) && x < Modulus(sf)
    ensures moved == MovedField(Ubfm, x, (DatasizeBits(sf) - shift) % DatasizeBits(sf), DatasizeBits(sf) - 1 - shift,
                                DatasizeBits(sf))
    ensures moved == x * Pow2(shift) % Modulus(sf) && moved < Modulus(sf)
  {
    ModulusIsPower(sf);
    LslField(x, shift, DatasizeBits(sf));
    moved := x * Pow2(shift) % Modulus(sf);
  }

  /** A logical right shift divides and drops the remainder. */
  lemma LsrMeaning(s: State, sf: Datasize, rd: RegisterID, rn: RegisterID, shift: nat)
    requires shift < DatasizeBits(sf)
    ensures s.Get(sf, rn) / Pow2(shift) <= s.Get(sf, rn)
    ensures Exec(s, LsrImm(sf, rd, rn, shift)) == s.SetX(rd, s.Get(sf, rn) / Pow2(shift) % Modulus(sf))
  {
    var moved := s.Get(sf, rn) / Pow2(shift);
    ModulusIsPower(sf);
    FieldDown(Ubfm, s.Get(sf, rn), shift, DatasizeBits(sf));
    Shrinks(s.Get(sf, rn), Pow2(shift));
    ExecBitfield(s, sf, Ubfm, rd, rn, shift, DatasizeBits(sf) - 1, moved);
  }

  /** An arithmetic right shift divides the signed reading, rounding down. */
  lemma AsrMeaning(s: State, sf: Datasize, rd: RegisterID, rn: RegisterID, shift: nat)
    requires shift < DatasizeBits(sf)
    ensures Exec(s, AsrImm(sf, rd, rn, shift)) ==
      s.SetX(rd, SInt(s.Get(sf, rn), Modulus(sf)) / Pow2(shift) % Modulus(sf))
  {
    ModulusIsPower(sf);
    FieldDown(Sbfm, s.Get(sf, rn), shift, DatasizeBits(sf));
    ExecBitfield(s, sf, Sbfm, rd, rn, shift, DatasizeBits(sf) - 1, SInt(s.Get(sf, rn), Modulus(sf)) / Pow2(shift));
  }

  lemma DividesBack(x: nat, u: nat)
    requires u > 0
    ensures x * u / u == x
  {
    var k := x * u / u - x;
    assert k * u == -(x * u % u);
    Modular.Multiple(k, u);
  }

  /** A shift up and back down gives the value back when nothing was shifted out. */
  lemma ShiftBack(s: State, sf: Datasize, r: RegisterID, shift: nat, x: nat, scaled: U64)
    requires r != ZR && shift < DatasizeBits(sf)
    requires x == s.Get(sf, r) && scaled == x * Pow2(shift) && scaled < Modulus(sf)
    ensures Exec(Exec(s, LslImm(sf, r, r, shift)), LsrImm(sf, r, r, shift)).X(r) == x
  {
    LslMeaning(s, sf, r, r, shift);
    Modular.Wrap(scaled, Modulus(sf));
    Modular.Wrap(x, Modulus(sf));
    SetTwice(s, r, scaled, x);
    LsrMeaning(s.SetX(r, scaled), sf, r, r, shift);
    DividesBack(x, Pow2(shift));
    SetTwice(s, r, x, 0);
  }
}
