/** Lowerings of the integer operations to instructions, and what they compute. */
module Arithmetic {
  import opened Instructions
  import opened Machine
  import Modular
  import opened Immediates
  import opened MoveImmediate
  import Comparison

  // ---- Register forms ----

  function MovReg(sf: Datasize, rd: RegisterID, rm: RegisterID): Instr {
    if rd == SP || rm == SP then AddSubImmediate(sf, Add, false, rd, rm, 0, false)
    else LogicalRegister(sf, Orr, rd, ZR, rm)
  }

  /** `sp` may be either operand of an addition: it is swapped into the slot that reads it. */
  function AddProgram(sf: Datasize, a: RegisterID, b: RegisterID, dest: RegisterID): seq<Instr> {
    if b == SP then [AddSubReg(sf, Add, false, dest, b, a)] else [AddSubReg(sf, Add, false, dest, a, b)]
  }

  function AddRRProgram(src: RegisterID, dest: RegisterID): seq<Instr> {
    if src == SP then [AddSubReg(D32, Add, false, dest, src, dest)] else [AddSubReg(D32, Add, false, dest, dest, src)]
  }

  function MoveRRProgram(src: RegisterID, dest: RegisterID): seq<Instr> {
    if src == dest then []
    else if src == ZR && dest != SP then [MoveWide(D64, MovZ, dest, 0, 0)]
    else [MovReg(D64, dest, src)]
  }

  function ZeroExtend32Program(src: RegisterID, dest: RegisterID): seq<Instr> {
    if src == ZR && dest != SP then [MoveWide(D32, MovZ, dest, 0, 0)] else [MovReg(D32, dest, src)]
  }

  function SwapProgram(reg1: RegisterID, reg2: RegisterID): seq<Instr> {
    if reg1 == reg2 then []
    else MoveRRProgram(reg1, IP0) + MoveRRProgram(reg2, reg1) + MoveRRProgram(IP0, reg2)
  }

  function Apply(op: AddOp, x: int, y: int): int {
    if op == Add then x + y else x - y
  }

  lemma WrappedSum(op: AddOp, x: int, y: int, q: int, modulus: int)
    requires 0 < modulus
    ensures Apply(op, x, y + q * modulus) % modulus == Apply(op, x, y) % modulus
    ensures (x + (modulus - 1 - y) + 1) % modulus == (x - y) % modulus
  {
    Modular.WrapShift(x + y, q, modulus);
    assert x - (y + q * modulus) == (x - y) + (-q) * modulus;
    Modular.WrapShift(x - y, -q, modulus);
    Modular.WrapShift(x - y, 1, modulus);
  }

  /** The hardware sum is the exact one, wrapped. */
  lemma SumWraps(op: AddOp, x: nat, imm: int, modulus: nat)
    requires x < modulus
    ensures AddSub(op, x, imm % modulus, modulus).result == Apply(op, x, imm) % modulus
  {
    WrappedSum(op, x, imm % modulus, imm / modulus, modulus);
    assert imm == imm % modulus + imm / modulus * modulus;
  }

  lemma AddMeaning(s: State, sf: Datasize, a: RegisterID, b: RegisterID, dest: RegisterID)
    ensures ExecAll(s, AddProgram(sf, a, b, dest)) ==
      s.SetX(dest, (s.Get(sf, a) + s.Get(sf, b)) % Modulus(sf))
  {
    var i := AddProgram(sf, a, b, dest)[0];
    ExecAllOne(s, i);
    if b == SP {
      ExecAddSubReg(s, sf, Add, false, dest, b, a);
    } else {
      ExecAddSubReg(s, sf, Add, false, dest, a, b);
    }
  }

  lemma AddRRMeaning(s: State, src: RegisterID, dest: RegisterID)
    ensures ExecAll(s, AddRRProgram(src, dest)) ==
      s.SetX(dest, (s.Get(D32, dest) + s.Get(D32, src)) % 0x1_0000_0000)
  {
    ExecAllOne(s, AddRRProgram(src, dest)[0]);
    if src == SP {
      ExecAddSubReg(s, D32, Add, false, dest, src, dest);
    } else {
      ExecAddSubReg(s, D32, Add, false, dest, dest, src);
    }
  }

  // ---- Addition and subtraction of an immediate ----

  function InvertAddOp(op: AddOp): AddOp {
    if op == Add then Sub else Add
  }

  function FoldedProgram(sf: Datasize, op: AddOp, parts: ShiftedImmediate, src: RegisterID,
                         dest: RegisterID): seq<Instr> {
    [AddSubImmediate(sf, if parts.inverted then InvertAddOp(op) else op, false, dest, src, parts.u12, parts.shift12)]
  }

  /** What `add_sub_imm32` emits. */
  function AddSubImm32Program(op: AddOp, imm: I32, src: RegisterID, dest: RegisterID): seq<Instr> {
    match TryExtractShiftedImm32(imm)
    case Some(parts) => FoldedProgram(D32, op, parts, src, dest)
    case None =>
      if op == Add && src != dest then MoveProgram(D32, dest, imm % 0x1_0000_0000) + AddRRProgram(src, dest)
      else MoveProgram(D32, IP0, imm % 0x1_0000_0000) + [AddSubReg(D32, op, false, dest, src, IP0)]
  }

  /** What `add_sub_imm64` emits. */
  function AddSubImm64Program(op: AddOp, imm: I32, src: RegisterID, dest: RegisterID): seq<Instr> {
    match TryExtractShiftedImm32(imm)
    case Some(parts) => FoldedProgram(D64, op, parts, src, dest)
    case None =>
      MoveProgram(D64, IP0, imm % 0x1_0000_0000_0000_0000) + [AddSubReg(D64, op, false, dest, src, IP0)]
  }

  lemma ExecFolded(s: State, sf: Datasize, op: AddOp, src: RegisterID, dest: RegisterID, u12: nat, shift12: bool,
                   y: nat)
    requires u12 < 0x1000 && y == (if shift12 then 0x1000 * u12 else u12)
    ensures ExecAll(s, [AddSubImmediate(sf, op, false, dest, src, u12, shift12)]) ==
      s.SetX(dest, Apply(op, s.Get(sf, src), y) % Modulus(sf))
  {
    ExecAllOne(s, AddSubImmediate(sf, op, false, dest, src, u12, shift12));
    ExecAddSubImmediate(s, sf, op, false, dest, src, u12, shift12, y);
    Modular.Wrap(y, Modulus(sf));
    SumWraps(op, s.Get(sf, src), y, Modulus(sf));
  }

  lemma FoldedMeaning(s: State, sf: Datasize, op: AddOp, imm: I32, src: RegisterID, dest: RegisterID)
    requires Foldable(imm)
    ensures TryExtractShiftedImm32(imm).Some?
    ensures ExecAll(s, FoldedProgram(sf, op, TryExtractShiftedImm32(imm).value, src, dest)) ==
      s.SetX(dest, Apply(op, s.Get(sf, src), imm) % Modulus(sf))
  {
    ExtractionExact(imm);
    var parts := TryExtractShiftedImm32(imm).value;
    var applied := if parts.inverted then InvertAddOp(op) else op;
    assert Apply(applied, s.Get(sf, src), Magnitude(parts)) == Apply(op, s.Get(sf, src), imm);
    ExecFolded(s, sf, applied, src, dest, parts.u12, parts.shift12, Magnitude(parts));
  }

  /** The scratch path: correct unless the source is the scratch register itself. */
  lemma ScratchMeaning(s: State, sf: Datasize, op: AddOp, imm: I32, src: RegisterID, dest: RegisterID)
    requires src != IP0
    ensures ExecAll(s, MoveProgram(sf, IP0, imm % Modulus(sf)) + [AddSubReg(sf, op, false, dest, src, IP0)]) ==
      s.SetX(IP0, imm % Modulus(sf)).SetX(dest, Apply(op, s.Get(sf, src), imm) % Modulus(sf))
  {
    var value := imm % Modulus(sf);
    var last := AddSubReg(sf, op, false, dest, src, IP0);
    MoveSets(s, sf, IP0, value);
    ExecAllAppend(s, MoveProgram(sf, IP0, value), [last]);
    ExecAllOne(s.SetX(IP0, value), last);
    ExecAddSubReg(s.SetX(IP0, value), sf, op, false, dest, src, IP0);
    Comparison.ScratchOnly(s, sf, src, value);
    SumWraps(op, s.Get(sf, src), imm, Modulus(sf));
  }

  /** The registers after `add_sub_imm32`: the sum, and the scratch only where it is used. */
  function AfterAddSubImm(s: State, sf: Datasize, op: AddOp, imm: I32, src: RegisterID, dest: RegisterID): State {
    var sum := Apply(op, s.Get(sf, src), imm) % Modulus(sf);
    if Foldable(imm) || (sf == D32 && op == Add && src != dest) then s.SetX(dest, sum)
    else s.SetX(IP0, imm % Modulus(sf)).SetX(dest, sum)
  }

  /** The paths on which the source must not be the scratch register, and the registers that the
      chosen slots cannot name. */
  predicate AddSubImmPrecondition(sf: Datasize, op: AddOp, imm: I32, src: RegisterID, dest: RegisterID) {
    if Foldable(imm) then src != ZR && dest != ZR
    else if sf == D32 && op == Add && src != dest then dest != ZR && dest != SP
    else src != IP0
  }

  lemma WrappedAdd(x: int, imm: int, modulus: int)
    requires 0 < modulus
    ensures (imm % modulus + x) % modulus == (x + imm) % modulus
  {
    Modular.WrapShift(imm % modulus + x, imm / modulus, modulus);
    assert imm == imm % modulus + imm / modulus * modulus;
  }

  lemma Overwritten(s: State, sf: Datasize, r: RegisterID, value: U64, other: RegisterID)
    requires r != ZR && value < Modulus(sf)
    ensures s.SetX(r, value).Get(sf, r) == value
    ensures other != r ==> s.SetX(r, value).Get(sf, other) == s.Get(sf, other)
  {
  }

  lemma DestMeaning(s: State, imm: I32, src: RegisterID, dest: RegisterID)
    requires src != dest && dest != ZR
    ensures ExecAll(s, MoveProgram(D32, dest, imm % 0x1_0000_0000) + AddRRProgram(src, dest)) ==
      s.SetX(dest, (s.Get(D32, src) + imm) % 0x1_0000_0000)
  {
    var value := imm % 0x1_0000_0000;
    var sum := (value + s.Get(D32, src)) % 0x1_0000_0000;
    MoveSets(s, D32, dest, value);
    ExecAllAppend(s, MoveProgram(D32, dest, value), AddRRProgram(src, dest));
    AddRRMeaning(s.SetX(dest, value), src, dest);
    Overwritten(s, D32, dest, value, src);
    SetTwice(s, dest, value, sum);
    WrappedAdd(s.Get(D32, src), imm, 0x1_0000_0000);
  }

  /** `add32_imm` and `sub32_imm` compute the exact sum or difference modulo 2^32 on every path. */
  lemma AddSubImm32Meaning(s: State, op: AddOp, imm: I32, src: RegisterID, dest: RegisterID)
    requires AddSubImmPrecondition(D32, op, imm, src, dest)
    ensures ExecAll(s, AddSubImm32Program(op, imm, src, dest)) == AfterAddSubImm(s, D32, op, imm, src, dest)
  {
    ExtractionExact(imm);
    if Foldable(imm) {
      FoldedMeaning(s, D32, op, imm, src, dest);
    } else if op == Add && src != dest {
      DestMeaning(s, imm, src, dest);
    } else {
      ScratchMeaning(s, D32, op, imm, src, dest);
    }
  }

  /** `add64_imm` adds the sign-extended immediate modulo 2^64 on every path. */
  lemma AddSubImm64Meaning(s: State, op: AddOp, imm: I32, src: RegisterID, dest: RegisterID)
    requires AddSubImmPrecondition(D64, op, imm, src, dest)
    ensures ExecAll(s, AddSubImm64Program(op, imm, src, dest)) == AfterAddSubImm(s, D64, op, imm, src, dest)
  {
    ExtractionExact(imm);
    if Foldable(imm) {
      FoldedMeaning(s, D64, op, imm, src, dest);
    } else {
      ScratchMeaning(s, D64, op, imm, src, dest);
    }
  }

  function AddSubImmProgram(sf: Datasize, op: AddOp, imm: I32, src: RegisterID, dest: RegisterID): seq<Instr> {
    if sf == D64 then AddSubImm64Program(op, imm, src, dest) else AddSubImm32Program(op, imm, src, dest)
  }

  lemma AddSubImmMeaning(s: State, sf: Datasize, op: AddOp, imm: I32, src: RegisterID, dest: RegisterID)
    requires AddSubImmPrecondition(sf, op, imm, src, dest)
    ensures ExecAll(s, AddSubImmProgram(sf, op, imm, src, dest)) == AfterAddSubImm(s, sf, op, imm, src, dest)
  {
    if sf == D64 {
      AddSubImm64Meaning(s, op, imm, src, dest);
    } else {
      AddSubImm32Meaning(s, op, imm, src, dest);
    }
  }

  predicate Computed(s: State, t: State, sf: Datasize, op: AddOp, imm: I32, src: RegisterID, dest: RegisterID) {
    t.X(dest) == Apply(op, s.Get(sf, src), imm) % Modulus(sf)
  }

  /** The lowering computes the sum or difference from every state. */
  ghost predicate Computes(sf: Datasize, op: AddOp, imm: I32, src: RegisterID, dest: RegisterID) {
    forall s: State :: Computed(s, ExecAll(s, AddSubImmProgram(sf, op, imm, src, dest)), sf, op, imm, src, dest)
  }

  /** On the scratch path a source in the scratch register is lost before it is read. */
  lemma ScratchSourceLost(s: State, sf: Datasize, op: AddOp, imm: I32, dest: RegisterID)
    requires s.X(IP0) == 0 && dest != ZR
    ensures ExecAll(s, MoveProgram(sf, IP0, imm % Modulus(sf)) + [AddSubReg(sf, op, false, dest, IP0, IP0)]).X(dest) ==
      Apply(op, imm, imm) % Modulus(sf)
  {
    var value := imm % Modulus(sf);
    var last := AddSubReg(sf, op, false, dest, IP0, IP0);
    MoveSets(s, sf, IP0, value);
    ExecAllAppend(s, MoveProgram(sf, IP0, value), [last]);
    ExecAllOne(s.SetX(IP0, value), last);
    ExecAddSubReg(s.SetX(IP0, value), sf, op, false, dest, IP0, IP0);
    Overwritten(s, sf, IP0, value, IP0);
    SumWraps(op, value, imm, Modulus(sf));
    WrappedTwice(op, imm, Modulus(sf));
    SetTwice(s.SetX(IP0, value), dest, Apply(op, imm, imm) % Modulus(sf), 0);
  }

  lemma WrappedTwice(op: AddOp, imm: int, modulus: int)
    requires 0 < modulus
    ensures Apply(op, imm % modulus, imm) % modulus == Apply(op, imm, imm) % modulus
  {
    Modular.WrapShift(Apply(op, imm % modulus, imm), imm / modulus, modulus);
    assert imm == imm % modulus + imm / modulus * modulus;
  }

  lemma LostSourceShows(sf: Datasize, op: AddOp, imm: I32)
    requires !Foldable(imm)
    ensures Apply(op, imm, imm) % Modulus(sf) != Apply(op, 0, imm) % Modulus(sf)
  {
    if sf == D64 {
    } else {
    }
  }

  lemma ScratchPath(sf: Datasize, op: AddOp, imm: I32, src: RegisterID, dest: RegisterID)
    requires !Foldable(imm) && !(sf == D32 && op == Add && src != dest)
    ensures AddSubImmProgram(sf, op, imm, src, dest) ==
      MoveProgram(sf, IP0, imm % Modulus(sf)) + [AddSubReg(sf, op, false, dest, src, IP0)]
  {
    ExtractionExact(imm);
  }

  lemma ScratchSourceFails(sf: Datasize, op: AddOp, imm: I32, dest: RegisterID)
    requires !Foldable(imm) && dest != ZR && !(sf == D32 && op == Add && dest != IP0)
    ensures !Computes(sf, op, imm, IP0, dest)
  {
    var s := State(map[], Flags(false, false, false, false), map[]);
    ScratchPath(sf, op, imm, IP0, dest);
    ScratchSourceLost(s, sf, op, imm, dest);
    LostSourceShows(sf, op, imm);
    assert !Computed(s, ExecAll(s, AddSubImmProgram(sf, op, imm, IP0, dest)), sf, op, imm, IP0, dest);
  }

  /** Given registers every slot can name, the lowering is right from every state exactly when it does
      not take the scratch path with the scratch register as its source. */
  lemma AddSubImmExact(sf: Datasize, op: AddOp, imm: I32, src: RegisterID, dest: RegisterID)
    requires src != ZR && dest != ZR && dest != SP
    ensures Computes(sf, op, imm, src, dest) <==>
      (Foldable(imm) || src != IP0 || (sf == D32 && op == Add && dest != IP0))
  {
    if Foldable(imm) || src != IP0 || (sf == D32 && op == Add && dest != IP0) {
      forall s: State
        ensures Computed(s, ExecAll(s, AddSubImmProgram(sf, op, imm, src, dest)), sf, op, imm, src, dest)
      {
        AddSubImmMeaning(s, sf, op, imm, src, dest);
      }
    } else {
      ScratchSourceFails(sf, op, imm, dest);
    }
  }

  // ---- Moves ----

  lemma OrrWithZero(s: State, sf: Datasize, dest: RegisterID, src: RegisterID)
    ensures Exec(s, LogicalRegister(sf, Orr, dest, ZR, src)) == s.SetX(dest, s.Get(sf, src))
  {
    assert s.Get(sf, ZR) == 0;
    Modular.Wrap(s.Get(sf, src), Modulus(sf));
  }

  lemma MovRegMeaning(s: State, sf: Datasize, dest: RegisterID, src: RegisterID)
    ensures Exec(s, MovReg(sf, dest, src)) == s.SetX(dest, s.Get(sf, src))
  {
    if dest == SP || src == SP {
      ExecAddSubImmediate(s, sf, Add, false, dest, src, 0, false, 0);
      Modular.Wrap(s.Get(sf, src), Modulus(sf));
    } else {
      OrrWithZero(s, sf, dest, src);
    }
  }

  lemma MoveRRMeaning(s: State, src: RegisterID, dest: RegisterID)
    ensures ExecAll(s, MoveRRProgram(src, dest)) == if src == dest then s else s.SetX(dest, s.X(src))
  {
    if src != dest {
      if src == ZR && dest != SP {
        ExecClear(s, D64, dest);
      } else {
        ExecAllOne(s, MovReg(D64, dest, src));
        MovRegMeaning(s, D64, dest, src);
        assert s.Get(D64, src) == s.X(src);
      }
    }
  }

  lemma ZeroExtend32Meaning(s: State, src: RegisterID, dest: RegisterID)
    ensures ExecAll(s, ZeroExtend32Program(src, dest)) == s.SetX(dest, s.X(src) % 0x1_0000_0000)
  {
    if src == ZR && dest != SP {
      ExecClear(s, D32, dest);
    } else {
      ExecAllOne(s, MovReg(D32, dest, src));
      MovRegMeaning(s, D32, dest, src);
    }
  }

  lemma SwapSteps(s: State, reg1: RegisterID, reg2: RegisterID, t1: State, t2: State)
    requires reg1 != reg2
    requires t1 == ExecAll(s, MoveRRProgram(reg1, IP0)) && t2 == ExecAll(t1, MoveRRProgram(reg2, reg1))
    ensures ExecAll(s, SwapProgram(reg1, reg2)) == ExecAll(t2, MoveRRProgram(IP0, reg2))
  {
    ExecAllAppend(s, MoveRRProgram(reg1, IP0), MoveRRProgram(reg2, reg1));
    ExecAllAppend(s, MoveRRProgram(reg1, IP0) + MoveRRProgram(reg2, reg1), MoveRRProgram(IP0, reg2));
  }

  /** The swap goes through the scratch register: it exchanges two others, and loses one of the
      values when either is the scratch itself. */
  lemma SwapMeaning(s: State, reg1: RegisterID, reg2: RegisterID)
    requires reg1 != reg2
    ensures reg1 != IP0 && reg2 != IP0 ==>
      ExecAll(s, SwapProgram(reg1, reg2)) == s.SetX(IP0, s.X(reg1)).SetX(reg1, s.X(reg2)).SetX(reg2, s.X(reg1))
    ensures reg1 == IP0 ==> ExecAll(s, SwapProgram(reg1, reg2)) == s.SetX(IP0, s.X(reg2)).SetX(reg2, s.X(reg2))
    ensures reg2 == IP0 ==> ExecAll(s, SwapProgram(reg1, reg2)) == s.SetX(IP0, s.X(reg1)).SetX(reg1, s.X(reg1))
  {
    var t1 := ExecAll(s, MoveRRProgram(reg1, IP0));
    var t2 := ExecAll(t1, MoveRRProgram(reg2, reg1));
    MoveRRMeaning(s, reg1, IP0);
    MoveRRMeaning(t1, reg2, reg1);
    MoveRRMeaning(t2, IP0, reg2);
    SwapSteps(s, reg1, reg2, t1, t2);
  }

  /** The swap exchanges two registers from every state. */
  ghost predicate Swaps(reg1: RegisterID, reg2: RegisterID) {
    forall s: State :: Exchanged(s, ExecAll(s, SwapProgram(reg1, reg2)), reg1, reg2)
  }

  predicate Exchanged(s: State, t: State, reg1: RegisterID, reg2: RegisterID) {
    t.X(reg1) == s.X(reg2) && t.X(reg2) == s.X(reg1)
  }

  lemma SwapExact(reg1: RegisterID, reg2: RegisterID)
    requires reg1 != reg2 && reg1 != ZR && reg2 != ZR
    ensures Swaps(reg1, reg2) <==> reg1 != IP0 && reg2 != IP0
  {
    forall s: State | reg1 != IP0 && reg2 != IP0
      ensures Exchanged(s, ExecAll(s, SwapProgram(reg1, reg2)), reg1, reg2)
    {
      SwapMeaning(s, reg1, reg2);
    }
    var s := State(map[reg1 := 0, reg2 := 1], Flags(false, false, false, false), map[]);
    SwapMeaning(s, reg1, reg2);
    assert reg1 == IP0 || reg2 == IP0 ==> !Exchanged(s, ExecAll(s, SwapProgram(reg1, reg2)), reg1, reg2);
  }
}
