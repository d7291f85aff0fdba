/** The ARM64 registers and instructions that the macro-assembler emits. */
module Instructions {

  /** `x0`..`x30` are 0..30, `sp` is 31, and `zr` is the alias 63 that shares field value 31. */
  type RegisterID = r: nat | r <= 31 || r == 63

  const IP0: RegisterID := 16
  const IP1: RegisterID := 17
  const LR: RegisterID := 30
  const SP: RegisterID := 31
  const ZR: RegisterID := 63

  datatype Datasize = D32 | D64

  datatype AddOp = Add | Sub

  datatype LogicalOp = And | Orr | Eor | Ands

  datatype MoveWideOp = MovN | MovZ | MovK

  datatype ExtendType = Uxtb | Uxth | Uxtw | Uxtx | Sxtb | Sxth | Sxtw | Sxtx

  datatype MemOpSize = Size8 | Size16 | Size32 | Size64

  datatype MemOp = Store | Load

  datatype PairMode = PostIndex | PairOffset | PreIndex

  datatype BranchKind = Jmp | Call | Ret

  datatype Condition =
    | Eq | Ne | Hs | Lo | Mi | Pl | Vs | Vc | Hi | Ls | Ge | Lt | Gt | Le | Al
    | Invalid

  datatype ShiftOp = Lslv | Lsrv | Asrv

  datatype MultiplyOp = Madd | Msub | Smaddl | Smsubl

  datatype BitfieldOp = Sbfm | Ubfm

  datatype Instr =
    | AddSubImmediate(sf: Datasize, op: AddOp, setFlags: bool, rd: RegisterID, rn: RegisterID,
                      imm12: nat, shift12: bool)
    | AddSubRegister(sf: Datasize, op: AddOp, setFlags: bool, rd: RegisterID, rn: RegisterID, rm: RegisterID)
    | AddSubExtended(sf: Datasize, op: AddOp, setFlags: bool, rd: RegisterID, rn: RegisterID, rm: RegisterID,
                     option: ExtendType, amount: nat)
    | LogicalRegister(sf: Datasize, logical: LogicalOp, rd: RegisterID, rn: RegisterID, rm: RegisterID)
    | MoveWide(sf: Datasize, move: MoveWideOp, rd: RegisterID, imm16: nat, hw: nat)
    | LoadStoreUnsigned(size: MemOpSize, mem: MemOp, rt: RegisterID, rn: RegisterID, imm12: nat)
    | LoadStoreRegister(size: MemOpSize, mem: MemOp, rt: RegisterID, rn: RegisterID, rm: RegisterID,
                        option: ExtendType, scaled: bool)
    | LoadStoreUnscaled(size: MemOpSize, mem: MemOp, rt: RegisterID, rn: RegisterID, imm9: int)
    | LoadStorePair(mode: PairMode, mem: MemOp, rt: RegisterID, rt2: RegisterID, rn: RegisterID, offset: int)
    | Branch(link: bool, imm26: int)
    | BranchConditional(cond: Condition, imm19: int)
    | BranchRegister(kind: BranchKind, rn: RegisterID)
    | Nop
    | ShiftRegister(sf: Datasize, shift: ShiftOp, rd: RegisterID, rn: RegisterID, rm: RegisterID)
    | Multiply(sf: Datasize, multiply: MultiplyOp, rd: RegisterID, rn: RegisterID, rm: RegisterID, ra: RegisterID)
    | Bitfield(sf: Datasize, bitfield: BitfieldOp, rd: RegisterID, rn: RegisterID, immr: nat, imms: nat)

  /** Field value 31 reads as `zr` in some slots and as `sp` in others. */
  predicate ZrSlot(r: RegisterID) {
    r != SP
  }

  predicate SpSlot(r: RegisterID) {
    r != ZR
  }

  predicate ZrOrSpSlot(useZr: bool, r: RegisterID) {
    if useZr then ZrSlot(r) else SpSlot(r)
  }

  /** The operands an instruction can express. */
  predicate Legal(i: Instr) {
    match i
    case AddSubImmediate(_, _, s, rd, rn, imm12, _) => ZrOrSpSlot(s, rd) && SpSlot(rn) && imm12 < 0x1000
    case AddSubRegister(_, _, _, rd, rn, rm) => ZrSlot(rd) && ZrSlot(rn) && ZrSlot(rm)
    case AddSubExtended(_, _, s, rd, rn, rm, _, amount) => ZrOrSpSlot(s, rd) && SpSlot(rn) && ZrSlot(rm) && amount <= 4
    case LogicalRegister(_, _, rd, rn, rm) => ZrSlot(rd) && ZrSlot(rn) && ZrSlot(rm)
    case MoveWide(sf, _, rd, imm16, hw) => ZrSlot(rd) && imm16 < 0x1_0000 && hw < (if sf == D64 then 4 else 2)
    case LoadStoreUnsigned(_, _, rt, rn, imm12) => ZrSlot(rt) && SpSlot(rn) && imm12 < 0x1000
    case LoadStoreRegister(_, _, rt, rn, rm, _, _) => ZrSlot(rt) && SpSlot(rn) && ZrSlot(rm)
    case LoadStoreUnscaled(_, _, rt, rn, imm9) => ZrSlot(rt) && SpSlot(rn) && -0x100 <= imm9 < 0x100
    case LoadStorePair(_, _, rt, rt2, rn, offset) =>
      ZrSlot(rt) && ZrSlot(rt2) && SpSlot(rn) && -512 <= offset < 512 && offset % 8 == 0
    case Branch(_, imm26) => -0x200_0000 <= imm26 < 0x200_0000
    case BranchConditional(cond, imm19) => cond != Invalid && -0x4_0000 <= imm19 < 0x4_0000
    case BranchRegister(_, rn) => ZrSlot(rn)
    case Nop => true
    case ShiftRegister(_, _, rd, rn, rm) => ZrSlot(rd) && ZrSlot(rn) && ZrSlot(rm)
    case Multiply(_, _, rd, rn, rm, ra) => ZrSlot(rd) && ZrSlot(rn) && ZrSlot(rm) && ZrSlot(ra)
    case Bitfield(sf, _, rd, rn, immr, imms) => ZrSlot(rd) && ZrSlot(rn) && immr < 64 && imms < 64
  }

  ghost predicate LegalProgram(program: seq<Instr>) {
    forall i :: i in program ==> Legal(i)
  }

  // ---- Register forms ----

  /** Field value 31 is `sp` only in the extended form. */
  function AddSubReg(sf: Datasize, op: AddOp, setFlags: bool, rd: RegisterID, rn: RegisterID, rm: RegisterID): Instr {
    if rd == SP || rn == SP then AddSubExtended(sf, op, setFlags, rd, rn, rm, Uxtx, 0)
    else AddSubRegister(sf, op, setFlags, rd, rn, rm)
  }

  // ---- Groups of instructions ----

  predicate Arithmetic(i: Instr) {
    i.AddSubImmediate? || i.AddSubRegister? || i.AddSubExtended? || i.LogicalRegister?
  }

  predicate Moves(i: Instr) {
    i.MoveWide? || i.ShiftRegister? || i.Multiply? || i.Bitfield?
  }

  predicate Memory(i: Instr) {
    i.LoadStoreUnsigned? || i.LoadStoreRegister? || i.LoadStoreUnscaled? || i.LoadStorePair?
  }

  predicate Branching(i: Instr) {
    i.Branch? || i.BranchConditional? || i.BranchRegister? || i.Nop?
  }
}
