/** Packing instructions into words and decoding them back. */
module Encoder {
  import opened Wrappers
  import opened Powers
  import opened Words
  import opened Instructions

  // ---- Register fields ----

  function XOrZr(r: RegisterID): Word {
    ToWord(r) & 31
  }

  /** The raw register value. Only `zr`, 63, does not fit the field: it would spill into the
      neighbouring one. */
  function XOrSp(r: RegisterID): Word {
    if r == ZR then 0x3f else XOrZr(r)
  }

  function XOrZrOrSp(useZr: bool, r: RegisterID): Word {
    if useZr then XOrZr(r) else XOrSp(r)
  }

  function FromSpField(field: Word): RegisterID {
    Pow2Values();
    Unsigned(field, 5)
  }

  function FromZrField(field: Word): RegisterID {
    if FromSpField(field) == SP then ZR else FromSpField(field)
  }

  function FromZrOrSpField(useZr: bool, field: Word): RegisterID {
    if useZr then FromZrField(field) else FromSpField(field)
  }

  /** A field value that reads back as `r` in a `zr` slot. */
  ghost predicate ZrField(r: RegisterID, field: Word) {
    field & 31 == field && FromZrField(field) == r
  }

  ghost predicate SpField(r: RegisterID, field: Word) {
    field & 31 == field && FromSpField(field) == r
  }

  ghost predicate ZrOrSpField(useZr: bool, r: RegisterID, field: Word) {
    field & 31 == field && FromZrOrSpField(useZr, field) == r
  }

  lemma MaskedRegister(n: nat)
    requires n <= 31
    ensures Unsigned(ToWord(n) & 31, 5) == n
  {
    LowOnesValues();
    Pow2Values();
    FieldUnsigned(n, 31, 5);
  }

  lemma ZrRegister()
    ensures Unsigned(ToWord(63) & 31, 5) == 31
  {
    LowOnesValues();
    UnsignedMasked(ToWord(63), 31, 5);
    UnsignedBits(63, 32, 5);
    LowBitsPeriodic(31, 5);
    Pow2Values();
    LowBitsFit(31, 5);
  }

  lemma RegisterFields(r: RegisterID)
    ensures ZrSlot(r) ==> ZrField(r, XOrZr(r))
    ensures SpSlot(r) ==> SpField(r, XOrSp(r))
  {
    MaskTwice(ToWord(r), 31);
    if r <= 31 {
      MaskedRegister(r);
    } else {
      ZrRegister();
    }
  }

  lemma TwoRegisterFields(a: RegisterID, b: RegisterID)
    ensures ZrSlot(a) ==> ZrField(a, XOrZr(a))
    ensures SpSlot(a) ==> SpField(a, XOrSp(a))
    ensures ZrSlot(b) ==> ZrField(b, XOrZr(b))
    ensures SpSlot(b) ==> SpField(b, XOrSp(b))
  {
    RegisterFields(a);
    RegisterFields(b);
  }

  lemma ThreeRegisterFields(a: RegisterID, b: RegisterID, c: RegisterID)
    ensures ZrSlot(a) ==> ZrField(a, XOrZr(a))
    ensures ZrSlot(b) ==> ZrField(b, XOrZr(b))
    ensures SpSlot(b) ==> SpField(b, XOrSp(b))
    ensures ZrSlot(c) ==> ZrField(c, XOrZr(c))
    ensures SpSlot(c) ==> SpField(c, XOrSp(c))
  {
    TwoRegisterFields(a, b);
    RegisterFields(c);
  }

  lemma EitherRegisterField(useZr: bool, r: RegisterID)
    requires ZrOrSpSlot(useZr, r)
    ensures ZrOrSpField(useZr, r, XOrZrOrSp(useZr, r))
  {
    RegisterFields(r);
  }

  lemma MaskTwice(w: Word, m: Word)
    ensures (w & m) & m == w & m
  {
  }

  // ---- Enumerations as field values ----

  function Flag(b: bool): Word { if b then 1 else 0 }

  function SfField(sf: Datasize): Word { if sf == D64 then 1 else 0 }

  function AddOpField(op: AddOp): Word { if op == Sub then 1 else 0 }

  function LogicalOpField(op: LogicalOp): Word {
    match op case And => 0 case Orr => 1 case Eor => 2 case Ands => 3
  }

  function MoveWideField(op: MoveWideOp): Word {
    match op case MovN => 0 case MovZ => 2 case MovK => 3
  }

  function ExtendField(e: ExtendType): Word {
    match e
    case Uxtb => 0 case Uxth => 1 case Uxtw => 2 case Uxtx => 3
    case Sxtb => 4 case Sxth => 5 case Sxtw => 6 case Sxtx => 7
  }

  function SizeField(s: MemOpSize): Word {
    match s case Size8 => 0 case Size16 => 1 case Size32 => 2 case Size64 => 3
  }

  function MemOpField(m: MemOp): Word { if m == Load then 1 else 0 }

  function BranchKindField(k: BranchKind): Word {
    match k case Jmp => 0 case Call => 1 case Ret => 2
  }

  function ConditionField(c: Condition): Word {
    match c
    case Eq => 0 case Ne => 1 case Hs => 2 case Lo => 3 case Mi => 4 case Pl => 5 case Vs => 6 case Vc => 7
    case Hi => 8 case Ls => 9 case Ge => 10 case Lt => 11 case Gt => 12 case Le => 13 case Al => 14 case Invalid => 15
  }

  function ShiftOpField(s: ShiftOp): Word {
    match s case Lslv => 8 case Lsrv => 9 case Asrv => 10
  }

  function MultiplyField(m: MultiplyOp): Word {
    match m case Madd => 0 case Msub => 1 case Smaddl => 2 case Smsubl => 3
  }

  function BitfieldField(b: BitfieldOp): Word { if b == Ubfm then 2 else 0 }

  // ---- The packers ----

  function AddSubtractImmediate(sf: Word, op: Word, s: Word, shift12: Word, imm12: Word, rn: Word, rd: Word): Word {
    0x1100_0000 | (sf << 31) | (op << 30) | (s << 29) | (shift12 << 22) | ((imm12 & 0xfff) << 10) | (rn << 5) | rd
  }

  function AddSubtractShiftedRegister(sf: Word, op: Word, s: Word, shift: Word, rm: Word, imm6: Word, rn: Word,
                                      rd: Word): Word
  {
    0x0b00_0000 | (sf << 31) | (op << 30) | (s << 29) | (shift << 22) | (rm << 16) | ((imm6 & 0x3f) << 10)
      | (rn << 5) | rd
  }

  function AddSubtractExtendedRegister(sf: Word, op: Word, s: Word, rm: Word, option: Word, imm3: Word, rn: Word,
                                       rd: Word): Word
  {
    0x0b20_0000 | (sf << 31) | (op << 30) | (s << 29) | (rm << 16) | (option << 13) | ((imm3 & 0x7) << 10)
      | (rn << 5) | rd
  }

  function LogicalShiftedRegister(sf: Word, opc: Word, shift: Word, n: Word, rm: Word, imm6: Word, rn: Word,
                                  rd: Word): Word
  {
    0x0a00_0000 | (sf << 31) | (opc << 29) | (shift << 22) | (n << 21) | (rm << 16) | ((imm6 & 0x3f) << 10)
      | (rn << 5) | rd
  }

  /** `imm16` arrives as a `u16`. */
  function MoveWideImmediate(sf: Word, opc: Word, hw: Word, imm16: Word, rd: Word): Word {
    0x1280_0000 | (sf << 31) | (opc << 29) | (hw << 21) | ((imm16 & 0xffff) << 5) | rd
  }

  function LoadStoreRegisterUnsignedImmediate(size: Word, opc: Word, imm12: Word, rn: Word, rt: Word): Word {
    0x3900_0000 | (size << 30) | (opc << 22) | ((imm12 & 0xfff) << 10) | (rn << 5) | rt
  }

  function LoadStoreRegisterRegisterOffset(size: Word, opc: Word, rm: Word, option: Word, s: Word, rn: Word,
                                           rt: Word): Word
  {
    0x3820_0800 | (size << 30) | (opc << 22) | (rm << 16) | (option << 13) | (s << 12) | (rn << 5) | rt
  }

  function LoadStoreRegisterUnscaledImmediate(size: Word, opc: Word, imm9: Word, rn: Word, rt: Word): Word {
    0x3800_0000 | (size << 30) | (opc << 22) | ((imm9 & 0x1ff) << 12) | (rn << 5) | rt
  }

  /** Post-index, offset and pre-index forms share every field but the base pattern; the size
      field is 2 for a pair of 64-bit registers. */
  function LoadStoreRegisterPair(pattern: Word, opc: Word, imm7: Word, rn: Word, rt: Word, rt2: Word): Word {
    pattern | (2 << 30) | (opc << 22) | ((imm7 & 0x7f) << 15) | (rt2 << 10) | (rn << 5) | rt
  }

  function UnconditionalBranchImmediate(op: Word, imm26: Word): Word {
    0x1400_0000 | (op << 31) | (imm26 & 0x03ff_ffff)
  }

  function ConditionalBranchImmediate(imm19: Word, cond: Word): Word {
    0x5400_0000 | ((imm19 & 0x0007_ffff) << 5) | cond
  }

  function UnconditionalBranchRegister(opc: Word, rn: Word): Word {
    0xd600_0000 | (opc << 21) | (0x1f << 16) | (rn << 5)
  }

  function System(l: Word, op0: Word, op1: Word, crn: Word, crm: Word, op2: Word, rt: Word): Word {
    0xd500_0000 | (l << 21) | (op0 << 19) | (op1 << 16) | (crn << 12) | (crm << 8) | (op2 << 5) | rt
  }

  function NopPseudo(): Word {
    System(0, 0, 3, 2, 0, 0, 31)
  }

  function DataProcessing2Source(sf: Word, rm: Word, opcode: Word, rn: Word, rd: Word): Word {
    0x1ac0_0000 | (sf << 31) | (rm << 16) | (opcode << 10) | (rn << 5) | rd
  }

  function DataProcessing3Source(sf: Word, opcode: Word, rm: Word, ra: Word, rn: Word, rd: Word): Word {
    0x1b00_0000 | (sf << 31) | ((opcode >> 4) << 29) | (((opcode >> 1) & 7) << 21) | (rm << 16)
      | ((opcode & 1) << 15) | (ra << 10) | (rn << 5) | rd
  }

  function BitfieldPack(sf: Word, opc: Word, immr: Word, imms: Word, rn: Word, rd: Word): Word {
    0x1300_0000 | (sf << 31) | (opc << 29) | (sf << 22) | ((immr & 0x3f) << 16) | ((imms & 0x3f) << 10)
      | (rn << 5) | rd
  }

  function PairPattern(mode: PairMode): Word {
    match mode case PostIndex => 0x2880_0000 case PairOffset => 0x2900_0000 case PreIndex => 0x2980_0000
  }

  /** The operands of an instruction as field values: registers, then immediates. */
  datatype Fields = Fields(rd: Word, rn: Word, rm: Word, ra: Word, imm: Word, imm2: Word)

  /** Integer operands are cast to `u32`; registers go through the helper of their slot. */
  function FieldsOf(i: Instr): Fields {
    match i
    case AddSubImmediate(_, _, s, rd, rn, imm12, _) => Fields(XOrZrOrSp(s, rd), XOrSp(rn), 0, 0, ToWord(imm12), 0)
    case AddSubRegister(_, _, _, rd, rn, rm) => Fields(XOrZr(rd), XOrZr(rn), XOrZr(rm), 0, 0, 0)
    case AddSubExtended(_, _, s, rd, rn, rm, _, amount) =>
      Fields(XOrZrOrSp(s, rd), XOrSp(rn), XOrZr(rm), 0, ToWord(amount), 0)
    case LogicalRegister(_, _, rd, rn, rm) => Fields(XOrZr(rd), XOrZr(rn), XOrZr(rm), 0, 0, 0)
    case MoveWide(_, _, rd, imm16, hw) => Fields(XOrZr(rd), 0, 0, 0, ToWord(imm16), ToWord(hw))
    case LoadStoreUnsigned(_, _, rt, rn, imm12) => Fields(XOrZr(rt), XOrSp(rn), 0, 0, ToWord(imm12), 0)
    case LoadStoreRegister(_, _, rt, rn, rm, _, _) => Fields(XOrZr(rt), XOrSp(rn), XOrZr(rm), 0, 0, 0)
    case LoadStoreUnscaled(_, _, rt, rn, imm9) => Fields(XOrZr(rt), XOrSp(rn), 0, 0, ToWord(imm9), 0)
    case LoadStorePair(_, _, rt, rt2, rn, offset) => Fields(XOrZr(rt), XOrSp(rn), 0, XOrZr(rt2), ToWord(offset / 8), 0)
    case Branch(_, imm26) => Fields(0, 0, 0, 0, ToWord(imm26), 0)
    case BranchConditional(cond, imm19) => Fields(0, 0, 0, 0, ToWord(imm19), 0)
    case BranchRegister(_, rn) => Fields(0, XOrZr(rn), 0, 0, 0, 0)
    case Nop => Fields(0, 0, 0, 0, 0, 0)
    case ShiftRegister(_, _, rd, rn, rm) => Fields(XOrZr(rd), XOrZr(rn), XOrZr(rm), 0, 0, 0)
    case Multiply(_, _, rd, rn, rm, ra) => Fields(XOrZr(rd), XOrZr(rn), XOrZr(rm), XOrZr(ra), 0, 0)
    case Bitfield(_, _, rd, rn, immr, imms) => Fields(XOrZr(rd), XOrZr(rn), 0, 0, ToWord(immr), ToWord(imms))
  }

  function Pack(i: Instr, f: Fields): Word {
    match i
    case AddSubImmediate(sf, op, s, _, _, _, shift12) =>
      AddSubtractImmediate(SfField(sf), AddOpField(op), Flag(s), Flag(shift12), f.imm, f.rn, f.rd)
    case AddSubRegister(sf, op, s, _, _, _) =>
      AddSubtractShiftedRegister(SfField(sf), AddOpField(op), Flag(s), 0, f.rm, 0, f.rn, f.rd)
    case AddSubExtended(sf, op, s, _, _, _, option, _) =>
      AddSubtractExtendedRegister(SfField(sf), AddOpField(op), Flag(s), f.rm, ExtendField(option), f.imm, f.rn, f.rd)
    case LogicalRegister(sf, op, _, _, _) =>
      LogicalShiftedRegister(SfField(sf), LogicalOpField(op), 0, 0, f.rm, 0, f.rn, f.rd)
    case MoveWide(sf, op, _, _, _) => MoveWideImmediate(SfField(sf), MoveWideField(op), f.imm2, f.imm, f.rd)
    case LoadStoreUnsigned(size, mem, _, _, _) =>
      LoadStoreRegisterUnsignedImmediate(SizeField(size), MemOpField(mem), f.imm, f.rn, f.rd)
    case LoadStoreRegister(size, mem, _, _, _, option, scaled) =>
      LoadStoreRegisterRegisterOffset(SizeField(size), MemOpField(mem), f.rm, ExtendField(option), Flag(scaled), f.rn,
                                      f.rd)
    case LoadStoreUnscaled(size, mem, _, _, _) =>
      LoadStoreRegisterUnscaledImmediate(SizeField(size), MemOpField(mem), f.imm, f.rn, f.rd)
    case LoadStorePair(mode, mem, _, _, _, _) =>
      LoadStoreRegisterPair(PairPattern(mode), MemOpField(mem), f.imm, f.rn, f.rd, f.ra)
    case Branch(link, _) => UnconditionalBranchImmediate(Flag(link), f.imm)
    case BranchConditional(cond, _) => ConditionalBranchImmediate(f.imm, ConditionField(cond))
    case BranchRegister(kind, _) => UnconditionalBranchRegister(BranchKindField(kind), f.rn)
    case Nop => NopPseudo()
    case ShiftRegister(sf, op, _, _, _) => DataProcessing2Source(SfField(sf), f.rm, ShiftOpField(op), f.rn, f.rd)
    case Multiply(sf, op, _, _, _, _) =>
      DataProcessing3Source(SfField(sf), MultiplyField(op), f.rm, f.ra, f.rn, f.rd)
    case Bitfield(sf, op, _, _, _, _) => BitfieldPack(SfField(sf), BitfieldField(op), f.imm, f.imm2, f.rn, f.rd)
  }

  /** The word an instruction is emitted as. */
  function Encode(i: Instr): Word {
    Pack(i, FieldsOf(i))
  }

  // ---- The decoder ----

  datatype Class =
    | CAddSubImmediate | CAddSubRegister | CAddSubExtended | CLogical | CMoveWide | CLoadStoreUnsigned
    | CLoadStoreRegister | CLoadStoreUnscaled | CPair | CBranch | CBranchConditional | CBranchRegister | CNop
    | CShiftRegister | CMultiply | CBitfield | CUnknown

  /** The fixed bits of the A64 encoding classes (DDI 0487, section C4.1). */
  function ClassOf(w: Word): Class {
    if w & 0x1f80_0000 == 0x1100_0000 then CAddSubImmediate
    else if w & 0x1fe0_fc00 == 0x0b00_0000 then CAddSubRegister
    else if w & 0x1fe0_0000 == 0x0b20_0000 then CAddSubExtended
    else if w & 0x1fe0_fc00 == 0x0a00_0000 then CLogical
    else if w & 0x1f80_0000 == 0x1280_0000 then CMoveWide
    else if w & 0x3f80_0000 == 0x3900_0000 then CLoadStoreUnsigned
    else if w & 0x3fa0_0c00 == 0x3820_0800 then CLoadStoreRegister
    else if w & 0x3fa0_0c00 == 0x3800_0000 then CLoadStoreUnscaled
    else if w & 0xfe00_0000 == 0xa800_0000 && w & 0x0180_0000 != 0 then CPair
    else if w & 0x7c00_0000 == 0x1400_0000 then CBranch
    else if w & 0xff00_0010 == 0x5400_0000 then CBranchConditional
    else if w & 0xff9f_fc1f == 0xd61f_0000 then CBranchRegister
    else if w == 0xd503_201f then CNop
    else if w & 0x7fe0_f000 == 0x1ac0_2000 then CShiftRegister
    else if w & 0x7fc0_0000 == 0x1b00_0000 then CMultiply
    else if w & 0x1f80_0000 == 0x1300_0000 then CBitfield
    else CUnknown
  }

  function SfOf(w: Word): Datasize { if w >> 31 == 1 then D64 else D32 }

  function AddOpOf(w: Word): AddOp { if (w >> 30) & 1 == 1 then Sub else Add }

  predicate BitAt29(w: Word) { (w >> 29) & 1 == 1 }

  function LogicalOpOf(field: Word): LogicalOp {
    if field == 0 then And else if field == 1 then Orr else if field == 2 then Eor else Ands
  }

  function MoveWideOf(field: Word): MoveWideOp {
    if field == 0 then MovN else if field == 2 then MovZ else MovK
  }

  function ExtendOf(field: Word): ExtendType {
    if field == 0 then Uxtb else if field == 1 then Uxth else if field == 2 then Uxtw else if field == 3 then Uxtx
    else if field == 4 then Sxtb else if field == 5 then Sxth else if field == 6 then Sxtw else Sxtx
  }

  function SizeOf(field: Word): MemOpSize {
    if field == 0 then Size8 else if field == 1 then Size16 else if field == 2 then Size32 else Size64
  }

  function MemOpOf(w: Word): MemOp { if (w >> 22) & 1 == 1 then Load else Store }

  function BranchKindOf(field: Word): BranchKind {
    if field == 0 then Jmp else if field == 1 then Call else Ret
  }

  function ConditionOf(field: Word): Condition {
    if field == 0 then Eq else if field == 1 then Ne else if field == 2 then Hs else if field == 3 then Lo
    else if field == 4 then Mi else if field == 5 then Pl else if field == 6 then Vs else if field == 7 then Vc
    else if field == 8 then Hi else if field == 9 then Ls else if field == 10 then Ge else if field == 11 then Lt
    else if field == 12 then Gt else if field == 13 then Le else if field == 14 then Al else Invalid
  }

  function ShiftOpOf(field: Word): ShiftOp {
    if field == 8 then Lslv else if field == 9 then Lsrv else Asrv
  }

  function MultiplyOf(field: Word): MultiplyOp {
    if field == 0 then Madd else if field == 1 then Msub else if field == 2 then Smaddl else Smsubl
  }

  function Rd(w: Word): Word { w & 31 }

  function Rn(w: Word): Word { (w >> 5) & 31 }

  function Ra(w: Word): Word { (w >> 10) & 31 }

  function Rm(w: Word): Word { (w >> 16) & 31 }

  function PairModeOf(w: Word): PairMode {
    if (w >> 23) & 3 == 1 then PostIndex else if (w >> 23) & 3 == 2 then PairOffset else PreIndex
  }

  /** The instruction a word stands for, within the classes the macro-assembler emits; reserved field values
      stand for none. */
  function Decode(w: Word): Option<Instr> {
    DecodeAs(ClassOf(w), w)
  }

  function DecodeAs(c: Class, w: Word): Option<Instr> {
    match c
    case CAddSubImmediate =>
      Some(AddSubImmediate(SfOf(w), AddOpOf(w), BitAt29(w), FromZrOrSpField(BitAt29(w), Rd(w)), FromSpField(Rn(w)),
                           Unsigned((w >> 10) & 0xfff, 12), (w >> 22) & 1 == 1))
    case CAddSubRegister =>
      Some(AddSubRegister(SfOf(w), AddOpOf(w), BitAt29(w), FromZrField(Rd(w)), FromZrField(Rn(w)), FromZrField(Rm(w))))
    case CAddSubExtended =>
      if Unsigned((w >> 10) & 7, 3) > 4 then None
      else Some(AddSubExtended(SfOf(w), AddOpOf(w), BitAt29(w), FromZrOrSpField(BitAt29(w), Rd(w)), FromSpField(Rn(w)),
                               FromZrField(Rm(w)), ExtendOf((w >> 13) & 7), Unsigned((w >> 10) & 7, 3)))
    case CLogical =>
      Some(LogicalRegister(SfOf(w), LogicalOpOf((w >> 29) & 3), FromZrField(Rd(w)), FromZrField(Rn(w)),
                           FromZrField(Rm(w))))
    case CMoveWide =>
      if (w >> 29) & 3 == 1 || (SfOf(w) == D32 && Unsigned((w >> 21) & 3, 2) >= 2) then None
      else Some(MoveWide(SfOf(w), MoveWideOf((w >> 29) & 3), FromZrField(Rd(w)), Unsigned((w >> 5) & 0xffff, 16),
                         Unsigned((w >> 21) & 3, 2)))
    case CLoadStoreUnsigned =>
      Some(LoadStoreUnsigned(SizeOf(w >> 30), MemOpOf(w), FromZrField(Rd(w)), FromSpField(Rn(w)),
                             Unsigned((w >> 10) & 0xfff, 12)))
    case CLoadStoreRegister =>
      Some(LoadStoreRegister(SizeOf(w >> 30), MemOpOf(w), FromZrField(Rd(w)), FromSpField(Rn(w)), FromZrField(Rm(w)),
                             ExtendOf((w >> 13) & 7), (w >> 12) & 1 == 1))
    case CLoadStoreUnscaled =>
      Some(LoadStoreUnscaled(SizeOf(w >> 30), MemOpOf(w), FromZrField(Rd(w)), FromSpField(Rn(w)),
                             Signed((w >> 12) & 0x1ff, 9)))
    case CPair =>
      Some(LoadStorePair(PairModeOf(w), MemOpOf(w), FromZrField(Rd(w)), FromZrField(Ra(w)), FromSpField(Rn(w)),
                         8 * Signed((w >> 15) & 0x7f, 7)))
    case CBranch => Some(Branch(w >> 31 == 1, Signed(w & 0x03ff_ffff, 26)))
    case CBranchConditional =>
      if ConditionOf(w & 15) == Invalid then None
      else Some(BranchConditional(ConditionOf(w & 15), Signed((w >> 5) & 0x0007_ffff, 19)))
    case CBranchRegister =>
      if (w >> 21) & 3 == 3 then None else Some(BranchRegister(BranchKindOf((w >> 21) & 3), FromZrField(Rn(w))))
    case CNop => Some(Nop)
    case CShiftRegister =>
      if (w >> 10) & 15 == 11 || (w >> 10) & 15 < 8 then None
      else Some(ShiftRegister(SfOf(w), ShiftOpOf((w >> 10) & 15), FromZrField(Rd(w)), FromZrField(Rn(w)),
                              FromZrField(Rm(w))))
    case CMultiply =>
      Some(Multiply(SfOf(w), MultiplyOf((((w >> 21) & 1) << 1) | ((w >> 15) & 1)), FromZrField(Rd(w)),
                    FromZrField(Rn(w)), FromZrField(Rm(w)), FromZrField(Ra(w))))
    case CBitfield =>
      if (w >> 22) & 1 != w >> 31 || (w >> 29) & 1 == 1 then None
      else Some(Bitfield(SfOf(w), if (w >> 30) & 1 == 1 then Ubfm else Sbfm, FromZrField(Rd(w)), FromZrField(Rn(w)),
                         Unsigned((w >> 16) & 0x3f, 6), Unsigned((w >> 10) & 0x3f, 6)))
    case CUnknown => None
  }

  // ---- Every packer keeps its fields apart ----

  lemma AddSubtractImmediateFields(sf: Word, op: Word, s: Word, shift12: Word, imm12: Word, rn: Word, rd: Word)
    ensures sf & 1 == sf && op & 1 == op && s & 1 == s && shift12 & 1 == shift12 && rn & 31 == rn && rd & 31 == rd ==>
      var w := AddSubtractImmediate(sf, op, s, shift12, imm12, rn, rd);
      && ClassOf(w) == CAddSubImmediate
      && w >> 31 == sf && (w >> 30) & 1 == op && (w >> 29) & 1 == s && (w >> 22) & 1 == shift12
      && (w >> 10) & 0xfff == imm12 & 0xfff && Rn(w) == rn && Rd(w) == rd
  {
  }

  lemma AddSubtractShiftedFields(sf: Word, op: Word, s: Word, rm: Word, rn: Word, rd: Word)
    ensures sf & 1 == sf && op & 1 == op && s & 1 == s && rm & 31 == rm && rn & 31 == rn && rd & 31 == rd ==>
      var w := AddSubtractShiftedRegister(sf, op, s, 0, rm, 0, rn, rd);
      && ClassOf(w) == CAddSubRegister
      && w >> 31 == sf && (w >> 30) & 1 == op && (w >> 29) & 1 == s
      && Rm(w) == rm && Rn(w) == rn && Rd(w) == rd
  {
  }

  lemma AddSubtractExtendedFields(sf: Word, op: Word, s: Word, rm: Word, option: Word, imm3: Word, rn: Word, rd: Word)
    ensures (sf & 1 == sf && op & 1 == op && s & 1 == s && option & 7 == option && rm & 31 == rm && rn & 31 == rn &&
             rd & 31 == rd) ==>
      var w := AddSubtractExtendedRegister(sf, op, s, rm, option, imm3, rn, rd);
      && ClassOf(w) == CAddSubExtended
      && w >> 31 == sf && (w >> 30) & 1 == op && (w >> 29) & 1 == s
      && (w >> 13) & 7 == option && (w >> 10) & 7 == imm3 & 7 && Rm(w) == rm && Rn(w) == rn && Rd(w) == rd
  {
  }

  lemma LogicalFields(sf: Word, opc: Word, rm: Word, rn: Word, rd: Word)
    ensures sf & 1 == sf && opc & 3 == opc && rm & 31 == rm && rn & 31 == rn && rd & 31 == rd ==>
      var w := LogicalShiftedRegister(sf, opc, 0, 0, rm, 0, rn, rd);
      ClassOf(w) == CLogical && w >> 31 == sf && (w >> 29) & 3 == opc && Rm(w) == rm && Rn(w) == rn && Rd(w) == rd
  {
  }

  lemma MoveWideFields(sf: Word, opc: Word, hw: Word, imm16: Word, rd: Word)
    ensures sf & 1 == sf && opc & 3 == opc && hw & 3 == hw && rd & 31 == rd ==>
      var w := MoveWideImmediate(sf, opc, hw, imm16, rd);
      && ClassOf(w) == CMoveWide
      && w >> 31 == sf && (w >> 29) & 3 == opc && (w >> 21) & 3 == hw && (w >> 5) & 0xffff == imm16 & 0xffff &&
          Rd(w) == rd
  {
  }

  lemma LoadStoreUnsignedFields(size: Word, opc: Word, imm12: Word, rn: Word, rt: Word)
    ensures size & 3 == size && opc & 1 == opc && rn & 31 == rn && rt & 31 == rt ==>
      var w := LoadStoreRegisterUnsignedImmediate(size, opc, imm12, rn, rt);
      && ClassOf(w) == CLoadStoreUnsigned
      && w >> 30 == size && (w >> 22) & 1 == opc && (w >> 10) & 0xfff == imm12 & 0xfff && Rn(w) == rn && Rd(w) == rt
  {
  }

  lemma LoadStoreRegisterFields(size: Word, opc: Word, rm: Word, option: Word, s: Word, rn: Word, rt: Word)
    ensures (size & 3 == size && opc & 1 == opc && option & 7 == option && s & 1 == s && rm & 31 == rm &&
             rn & 31 == rn && rt & 31 == rt) ==>
      var w := LoadStoreRegisterRegisterOffset(size, opc, rm, option, s, rn, rt);
      && ClassOf(w) == CLoadStoreRegister
      && w >> 30 == size && (w >> 22) & 1 == opc && (w >> 13) & 7 == option && (w >> 12) & 1 == s
      && Rm(w) == rm && Rn(w) == rn && Rd(w) == rt
  {
  }

  lemma LoadStoreUnscaledFields(size: Word, opc: Word, imm9: Word, rn: Word, rt: Word)
    ensures size & 3 == size && opc & 1 == opc && rn & 31 == rn && rt & 31 == rt ==>
      var w := LoadStoreRegisterUnscaledImmediate(size, opc, imm9, rn, rt);
      && ClassOf(w) == CLoadStoreUnscaled
      && w >> 30 == size && (w >> 22) & 1 == opc && (w >> 12) & 0x1ff == imm9 & 0x1ff && Rn(w) == rn && Rd(w) == rt
  {
  }

  lemma PairFields(mode: PairMode, opc: Word, imm7: Word, rn: Word, rt: Word, rt2: Word)
    ensures opc & 1 == opc && rn & 31 == rn && rt & 31 == rt && rt2 & 31 == rt2 ==>
      var w := LoadStoreRegisterPair(PairPattern(mode), opc, imm7, rn, rt, rt2);
      && ClassOf(w) == CPair && PairModeOf(w) == mode
      && (w >> 22) & 1 == opc && (w >> 15) & 0x7f == imm7 & 0x7f && Rn(w) == rn && Rd(w) == rt && Ra(w) == rt2
  {
  }

  lemma BranchFields(op: Word, imm26: Word)
    ensures op & 1 == op ==>
      var w := UnconditionalBranchImmediate(op, imm26);
      ClassOf(w) == CBranch && w >> 31 == op && w & 0x03ff_ffff == imm26 & 0x03ff_ffff
  {
  }

  lemma BranchConditionalFields(imm19: Word, cond: Word)
    ensures cond & 15 == cond ==>
      var w := ConditionalBranchImmediate(imm19, cond);
      ClassOf(w) == CBranchConditional && w & 15 == cond && (w >> 5) & 0x0007_ffff == imm19 & 0x0007_ffff
  {
  }

  lemma BranchRegisterFields(opc: Word, rn: Word)
    ensures opc & 3 == opc && rn & 31 == rn ==>
      var w := UnconditionalBranchRegister(opc, rn);
      ClassOf(w) == CBranchRegister && (w >> 21) & 3 == opc && Rn(w) == rn
  {
  }

  lemma ShiftRegisterFields(sf: Word, rm: Word, opcode: Word, rn: Word, rd: Word)
    ensures (sf & 1 == sf && opcode & 11 == opcode && opcode & 8 == 8 && rm & 31 == rm && rn & 31 == rn &&
             rd & 31 == rd) ==>
      var w := DataProcessing2Source(sf, rm, opcode, rn, rd);
      && ClassOf(w) == CShiftRegister
      && w >> 31 == sf && (w >> 10) & 15 == opcode && Rm(w) == rm && Rn(w) == rn && Rd(w) == rd
  {
  }

  lemma MultiplyFields(sf: Word, opcode: Word, rm: Word, ra: Word, rn: Word, rd: Word)
    ensures sf & 1 == sf && opcode & 3 == opcode && rm & 31 == rm && ra & 31 == ra && rn & 31 == rn && rd & 31 == rd ==>
      var w := DataProcessing3Source(sf, opcode, rm, ra, rn, rd);
      && ClassOf(w) == CMultiply
      && w >> 31 == sf && (((w >> 21) & 1) << 1) | ((w >> 15) & 1) == opcode
      && Rm(w) == rm && Ra(w) == ra && Rn(w) == rn && Rd(w) == rd
  {
  }

  lemma BitfieldFields(sf: Word, opc: Word, immr: Word, imms: Word, rn: Word, rd: Word)
    ensures sf & 1 == sf && opc & 2 == opc && rn & 31 == rn && rd & 31 == rd ==>
      var w := BitfieldPack(sf, opc, immr, imms, rn, rd);
      && ClassOf(w) == CBitfield
      && w >> 31 == sf && (w >> 22) & 1 == sf && (w >> 29) & 1 == 0 && (w >> 30) & 1 == opc >> 1
      && (w >> 16) & 0x3f == immr & 0x3f && (w >> 10) & 0x3f == imms & 0x3f && Rn(w) == rn && Rd(w) == rd
  {
  }

  // ---- Decoding undoes encoding ----

  lemma Imm3Field(n: nat)
    requires n < 8
    ensures Unsigned(ToWord(n) & 7, 3) == n
  {
    LowOnesValues();
    Pow2Values();
    FieldUnsigned(n, 7, 3);
  }

  lemma Imm6Field(n: nat)
    requires n < 64
    ensures Unsigned(ToWord(n) & 0x3f, 6) == n
  {
    LowOnesValues();
    Pow2Values();
    FieldUnsigned(n, 0x3f, 6);
  }

  lemma Imm12Field(n: nat)
    requires n < 0x1000
    ensures Unsigned(ToWord(n) & 0xfff, 12) == n
  {
    LowOnesValues();
    Pow2Values();
    FieldUnsigned(n, 0xfff, 12);
  }

  lemma Imm16Field(n: nat)
    requires n < 0x10000
    ensures Unsigned(ToWord(n) & 0xffff, 16) == n
  {
    LowOnesValues();
    Pow2Values();
    FieldUnsigned(n, 0xffff, 16);
  }

  lemma Imm7Field(n: int)
    requires -64 <= n < 64
    ensures Signed(ToWord(n) & 0x7f, 7) == n
  {
    LowOnesValues();
    Pow2Values();
    FieldSigned(n, 0x7f, 7);
  }

  lemma Imm9Field(n: int)
    requires -0x100 <= n < 0x100
    ensures Signed(ToWord(n) & 0x1ff, 9) == n
  {
    LowOnesValues();
    Pow2Values();
    FieldSigned(n, 0x1ff, 9);
  }

  lemma Imm19Field(n: int)
    requires -0x4_0000 <= n < 0x4_0000
    ensures Signed(ToWord(n) & 0x7_ffff, 19) == n
  {
    LowOnesValues();
    Pow2Values();
    FieldSigned(n, 0x7_ffff, 19);
  }

  lemma Imm26Field(n: int)
    requires -0x200_0000 <= n < 0x200_0000
    ensures Signed(ToWord(n) & 0x3ff_ffff, 26) == n
  {
    LowOnesValues();
    Pow2Values();
    FieldSigned(n, 0x3ff_ffff, 26);
  }

  lemma {:induction false} ZeroBits(k: nat)
    ensures Bits(0, k) == 0
  {
    if k > 0 {
      ZeroBits(k - 1);
    }
  }

  lemma TwoBits(w: Word, half: Word, low: bool, high: bool)
    requires half == ShiftIn(0, high) && w == ShiftIn(half, low)
    ensures w & 3 == w
  {
  }

  /** Halfword indices are shifted into the word unmasked: they fit their field by themselves. */
  lemma HalfwordIndexField(hw: nat)
    requires hw < 4
    ensures ToWord(hw) & 3 == ToWord(hw) && Unsigned(ToWord(hw), 2) == hw
  {
    UnsignedBits(hw, 32, 2);
    Pow2Values();
    LowBitsFit(hw, 2);
    ZeroBits(30);
    assert Bits(hw / 2, 31) == ShiftIn(Bits(hw / 4, 30), hw / 2 % 2 == 1);
    TwoBits(ToWord(hw), Bits(hw / 2, 31), hw % 2 == 1, hw / 2 % 2 == 1);
  }

  /** Decoding the packed word gives the instruction back. */
  ghost predicate Recovered(i: Instr, f: Fields) {
    Decode(Pack(i, f)) == Some(i)
  }

  lemma DecodeAsAddSubImmediate(w: Word, sf: Datasize, op: AddOp, s: bool, rd: RegisterID, rn: RegisterID, imm12: nat,
                                shift12: bool)
    requires SfOf(w) == sf && AddOpOf(w) == op && BitAt29(w) == s && ((w >> 22) & 1 == 1) == shift12
    requires FromZrOrSpField(s, Rd(w)) == rd && FromSpField(Rn(w)) == rn && Unsigned((w >> 10) & 0xfff, 12) == imm12
    ensures DecodeAs(CAddSubImmediate, w) == Some(AddSubImmediate(sf, op, s, rd, rn, imm12, shift12))
  {
  }

  lemma PackedAddSubImmediate(sf: Datasize, op: AddOp, s: bool, rd: RegisterID, rn: RegisterID, imm12: nat,
                              shift12: bool, imm: Word, rnF: Word, rdF: Word)
    requires ZrOrSpField(s, rd, rdF) && SpField(rn, rnF) && Unsigned(imm & 0xfff, 12) == imm12
    ensures Decode(AddSubtractImmediate(SfField(sf), AddOpField(op), Flag(s), Flag(shift12), imm, rnF, rdF))
      == Some(AddSubImmediate(sf, op, s, rd, rn, imm12, shift12))
  {
    AddSubtractImmediateFields(SfField(sf), AddOpField(op), Flag(s), Flag(shift12), imm, rnF, rdF);
    DecodeAsAddSubImmediate(AddSubtractImmediate(SfField(sf), AddOpField(op), Flag(s), Flag(shift12), imm, rnF, rdF),
                            sf, op, s, rd, rn, imm12, shift12);
  }

  lemma DecodeAddSubImmediate(sf: Datasize, op: AddOp, s: bool, rd: RegisterID, rn: RegisterID, imm12: nat,
                              shift12: bool, f: Fields)
    requires ZrOrSpField(s, rd, f.rd) && SpField(rn, f.rn) && Unsigned(f.imm & 0xfff, 12) == imm12
    ensures Recovered(AddSubImmediate(sf, op, s, rd, rn, imm12, shift12), f)
  {
    PackedAddSubImmediate(sf, op, s, rd, rn, imm12, shift12, f.imm, f.rn, f.rd);
  }

  lemma DecodeAddSubRegister(sf: Datasize, op: AddOp, s: bool, rd: RegisterID, rn: RegisterID, rm: RegisterID,
                             f: Fields)
    requires ZrField(rd, f.rd) && ZrField(rn, f.rn) && ZrField(rm, f.rm)
    ensures Recovered(AddSubRegister(sf, op, s, rd, rn, rm), f)
  {
    AddSubtractShiftedFields(SfField(sf), AddOpField(op), Flag(s), f.rm, f.rn, f.rd);
  }

  lemma ExtendFields(e: ExtendType)
    ensures ExtendField(e) & 7 == ExtendField(e) && ExtendOf(ExtendField(e)) == e
  {
  }

  lemma DecodeAddSubExtended(sf: Datasize, op: AddOp, s: bool, rd: RegisterID, rn: RegisterID, rm: RegisterID,
                             option: ExtendType, amount: nat, f: Fields)
    requires ZrOrSpField(s, rd, f.rd) && SpField(rn, f.rn) && ZrField(rm, f.rm)
    requires amount <= 4 && Unsigned(f.imm & 7, 3) == amount
    ensures Recovered(AddSubExtended(sf, op, s, rd, rn, rm, option, amount), f)
  {
    ExtendFields(option);
    AddSubtractExtendedFields(SfField(sf), AddOpField(op), Flag(s), f.rm, ExtendField(option), f.imm, f.rn,
                              f.rd);
  }

  lemma DecodeLogicalRegister(sf: Datasize, op: LogicalOp, rd: RegisterID, rn: RegisterID, rm: RegisterID, f: Fields)
    requires ZrField(rd, f.rd) && ZrField(rn, f.rn) && ZrField(rm, f.rm)
    ensures Recovered(LogicalRegister(sf, op, rd, rn, rm), f)
  {
    LogicalFields(SfField(sf), LogicalOpField(op), f.rm, f.rn, f.rd);
  }

  lemma DecodeAsMoveWide(w: Word, sf: Datasize, op: MoveWideOp, rd: RegisterID, imm16: nat, hw: nat)
    requires SfOf(w) == sf && (w >> 29) & 3 == MoveWideField(op) && FromZrField(Rd(w)) == rd
    requires Unsigned((w >> 5) & 0xffff, 16) == imm16 && Unsigned((w >> 21) & 3, 2) == hw && (sf == D32 ==> hw < 2)
    ensures DecodeAs(CMoveWide, w) == Some(MoveWide(sf, op, rd, imm16, hw))
  {
  }

  lemma PackedMoveWide(sf: Datasize, op: MoveWideOp, rd: RegisterID, imm16: nat, hw: nat, hwField: Word, imm: Word,
                       rdF: Word)
    requires (sf == D32 ==> hw < 2) && ZrField(rd, rdF) && hwField & 3 == hwField && Unsigned(hwField, 2) == hw
    requires Unsigned(imm & 0xffff, 16) == imm16
    ensures Decode(MoveWideImmediate(SfField(sf), MoveWideField(op), hwField, imm, rdF))
      == Some(MoveWide(sf, op, rd, imm16, hw))
  {
    MoveWideFields(SfField(sf), MoveWideField(op), hwField, imm, rdF);
    DecodeAsMoveWide(MoveWideImmediate(SfField(sf), MoveWideField(op), hwField, imm, rdF), sf, op, rd, imm16, hw);
  }

  lemma DecodeMoveWide(sf: Datasize, op: MoveWideOp, rd: RegisterID, imm16: nat, hw: nat, f: Fields)
    requires (sf == D32 ==> hw < 2) && ZrField(rd, f.rd) && f.imm2 & 3 == f.imm2 && Unsigned(f.imm2, 2) == hw
    requires Unsigned(f.imm & 0xffff, 16) == imm16
    ensures Recovered(MoveWide(sf, op, rd, imm16, hw), f)
  {
    PackedMoveWide(sf, op, rd, imm16, hw, f.imm2, f.imm, f.rd);
  }

  lemma PackedLoadStoreUnsigned(size: MemOpSize, mem: MemOp, rt: RegisterID, rn: RegisterID, imm12: nat, imm: Word,
                                rnF: Word, rtF: Word)
    requires ZrField(rt, rtF) && SpField(rn, rnF) && Unsigned(imm & 0xfff, 12) == imm12
    ensures Decode(LoadStoreRegisterUnsignedImmediate(SizeField(size), MemOpField(mem), imm, rnF, rtF))
      == Some(LoadStoreUnsigned(size, mem, rt, rn, imm12))
  {
    LoadStoreUnsignedFields(SizeField(size), MemOpField(mem), imm, rnF, rtF);
  }

  lemma DecodeLoadStoreUnsigned(size: MemOpSize, mem: MemOp, rt: RegisterID, rn: RegisterID, imm12: nat, f: Fields)
    requires ZrField(rt, f.rd) && SpField(rn, f.rn) && Unsigned(f.imm & 0xfff, 12) == imm12
    ensures Recovered(LoadStoreUnsigned(size, mem, rt, rn, imm12), f)
  {
    PackedLoadStoreUnsigned(size, mem, rt, rn, imm12, f.imm, f.rn, f.rd);
  }

  lemma DecodeLoadStoreRegister(size: MemOpSize, mem: MemOp, rt: RegisterID, rn: RegisterID, rm: RegisterID,
                                option: ExtendType, scaled: bool, f: Fields)
    requires ZrField(rt, f.rd) && SpField(rn, f.rn) && ZrField(rm, f.rm)
    ensures Recovered(LoadStoreRegister(size, mem, rt, rn, rm, option, scaled), f)
  {
    ExtendFields(option);
    LoadStoreRegisterFields(SizeField(size), MemOpField(mem), f.rm, ExtendField(option), Flag(scaled), f.rn,
                            f.rd);
  }

  lemma DecodeLoadStoreUnscaled(size: MemOpSize, mem: MemOp, rt: RegisterID, rn: RegisterID, imm9: int, f: Fields)
    requires ZrField(rt, f.rd) && SpField(rn, f.rn) && Signed(f.imm & 0x1ff, 9) == imm9
    ensures Recovered(LoadStoreUnscaled(size, mem, rt, rn, imm9), f)
  {
    LoadStoreUnscaledFields(SizeField(size), MemOpField(mem), f.imm, f.rn, f.rd);
  }

  lemma DecodeLoadStorePair(mode: PairMode, mem: MemOp, rt: RegisterID, rt2: RegisterID, rn: RegisterID, offset: int,
                            f: Fields)
    requires ZrField(rt, f.rd) && ZrField(rt2, f.ra) && SpField(rn, f.rn) && 8 * Signed(f.imm & 0x7f, 7) == offset
    ensures Recovered(LoadStorePair(mode, mem, rt, rt2, rn, offset), f)
  {
    PairFields(mode, MemOpField(mem), f.imm, f.rn, f.rd, f.ra);
  }

  lemma DecodeAsBranch(w: Word, field: Word, link: bool, imm26: int)
    requires ClassOf(w) == CBranch && w >> 31 == Flag(link) && w & 0x3ff_ffff == field && Signed(field, 26) == imm26
    ensures Decode(w) == Some(Branch(link, imm26))
  {
  }

  lemma PackedBranch(link: bool, imm26: int, imm: Word, field: Word)
    requires imm & 0x3ff_ffff == field && Signed(field, 26) == imm26
    ensures Decode(UnconditionalBranchImmediate(Flag(link), imm)) == Some(Branch(link, imm26))
  {
    BranchFields(Flag(link), imm);
    DecodeAsBranch(UnconditionalBranchImmediate(Flag(link), imm), field, link, imm26);
  }

  lemma DecodeBranch(link: bool, imm26: int, f: Fields)
    requires Signed(f.imm & 0x3ff_ffff, 26) == imm26
    ensures Recovered(Branch(link, imm26), f)
  {
    PackedBranch(link, imm26, f.imm, f.imm & 0x3ff_ffff);
  }

  lemma ConditionFields(c: Condition)
    ensures ConditionField(c) & 15 == ConditionField(c) && ConditionOf(ConditionField(c)) == c
  {
  }

  lemma DecodeAsBranchConditional(w: Word, cond: Condition, imm19: int)
    requires ConditionOf(w & 15) == cond != Invalid && Signed((w >> 5) & 0x7_ffff, 19) == imm19
    ensures DecodeAs(CBranchConditional, w) == Some(BranchConditional(cond, imm19))
  {
  }

  lemma PackedBranchConditional(cond: Condition, imm19: int, imm: Word, condF: Word)
    requires Signed(imm & 0x7_ffff, 19) == imm19 && condF & 15 == condF && ConditionOf(condF) == cond != Invalid
    ensures Decode(ConditionalBranchImmediate(imm, condF)) == Some(BranchConditional(cond, imm19))
  {
    BranchConditionalFields(imm, condF);
    DecodeAsBranchConditional(ConditionalBranchImmediate(imm, condF), cond, imm19);
  }

  lemma DecodeBranchConditional(cond: Condition, imm19: int, f: Fields)
    requires cond != Invalid && Signed(f.imm & 0x7_ffff, 19) == imm19
    ensures Recovered(BranchConditional(cond, imm19), f)
  {
    ConditionFields(cond);
    PackedBranchConditional(cond, imm19, f.imm, ConditionField(cond));
  }

  lemma DecodeBranchRegister(kind: BranchKind, rn: RegisterID, f: Fields)
    requires ZrField(rn, f.rn)
    ensures Recovered(BranchRegister(kind, rn), f)
  {
    BranchRegisterFields(BranchKindField(kind), f.rn);
  }

  lemma PackedNop()
    ensures Decode(NopPseudo()) == Some(Nop)
  {
    assert NopPseudo() == 0xd503_201f;
    assert ClassOf(0xd503_201f) == CNop;
  }

  lemma DecodeShiftRegister(sf: Datasize, op: ShiftOp, rd: RegisterID, rn: RegisterID, rm: RegisterID, f: Fields)
    requires ZrField(rd, f.rd) && ZrField(rn, f.rn) && ZrField(rm, f.rm)
    ensures Recovered(ShiftRegister(sf, op, rd, rn, rm), f)
  {
    ShiftRegisterFields(SfField(sf), f.rm, ShiftOpField(op), f.rn, f.rd);
  }

  lemma DecodeMultiply(sf: Datasize, op: MultiplyOp, rd: RegisterID, rn: RegisterID, rm: RegisterID, ra: RegisterID,
                       f: Fields)
    requires ZrField(rd, f.rd) && ZrField(rn, f.rn) && ZrField(rm, f.rm) && ZrField(ra, f.ra)
    ensures Recovered(Multiply(sf, op, rd, rn, rm, ra), f)
  {
    MultiplyFields(SfField(sf), MultiplyField(op), f.rm, f.ra, f.rn, f.rd);
  }

  lemma DecodeAsBitfield(w: Word, sf: Datasize, op: BitfieldOp, rd: RegisterID, rn: RegisterID, immr: nat, imms: nat)
    requires SfOf(w) == sf && (w >> 22) & 1 == w >> 31 && (w >> 29) & 1 == 0 && (w >> 30) & 1 == BitfieldField(op) >> 1
    requires FromZrField(Rd(w)) == rd && FromZrField(Rn(w)) == rn
    requires Unsigned((w >> 16) & 0x3f, 6) == immr && Unsigned((w >> 10) & 0x3f, 6) == imms
    ensures DecodeAs(CBitfield, w) == Some(Bitfield(sf, op, rd, rn, immr, imms))
  {
  }

  lemma PackedBitfield(sf: Datasize, op: BitfieldOp, rd: RegisterID, rn: RegisterID, immr: nat, imms: nat,
                       immrField: Word, immsField: Word, rnF: Word, rdF: Word)
    requires ZrField(rd, rdF) && ZrField(rn, rnF) && Unsigned(immrField & 0x3f, 6) == immr
    requires Unsigned(immsField & 0x3f, 6) == imms
    ensures Decode(BitfieldPack(SfField(sf), BitfieldField(op), immrField, immsField, rnF, rdF))
      == Some(Bitfield(sf, op, rd, rn, immr, imms))
  {
    BitfieldFields(SfField(sf), BitfieldField(op), immrField, immsField, rnF, rdF);
    DecodeAsBitfield(BitfieldPack(SfField(sf), BitfieldField(op), immrField, immsField, rnF, rdF), sf, op, rd, rn, immr,
                     imms);
  }

  lemma DecodeBitfield(sf: Datasize, op: BitfieldOp, rd: RegisterID, rn: RegisterID, immr: nat, imms: nat, f: Fields)
    requires ZrField(rd, f.rd) && ZrField(rn, f.rn) && Unsigned(f.imm & 0x3f, 6) == immr
    requires Unsigned(f.imm2 & 0x3f, 6) == imms
    ensures Recovered(Bitfield(sf, op, rd, rn, immr, imms), f)
  {
    PackedBitfield(sf, op, rd, rn, immr, imms, f.imm, f.imm2, f.rn, f.rd);
  }

  /** Every field reads back as the operand it stands for. */
  ghost predicate Matches(i: Instr, f: Fields) {
    match i
    case AddSubImmediate(_, _, s, rd, rn, imm12, _) =>
      ZrOrSpField(s, rd, f.rd) && SpField(rn, f.rn) && Unsigned(f.imm & 0xfff, 12) == imm12
    case AddSubRegister(_, _, _, rd, rn, rm) => ZrField(rd, f.rd) && ZrField(rn, f.rn) && ZrField(rm, f.rm)
    case AddSubExtended(_, _, s, rd, rn, rm, _, amount) =>
      && ZrOrSpField(s, rd, f.rd) && SpField(rn, f.rn) && ZrField(rm, f.rm)
      && amount <= 4 && Unsigned(f.imm & 7, 3) == amount
    case LogicalRegister(_, _, rd, rn, rm) => ZrField(rd, f.rd) && ZrField(rn, f.rn) && ZrField(rm, f.rm)
    case MoveWide(sf, _, rd, imm16, hw) =>
      && (sf == D32 ==> hw < 2) && ZrField(rd, f.rd)
      && f.imm2 & 3 == f.imm2 && Unsigned(f.imm2, 2) == hw && Unsigned(f.imm & 0xffff, 16) == imm16
    case LoadStoreUnsigned(_, _, rt, rn, imm12) =>
      ZrField(rt, f.rd) && SpField(rn, f.rn) && Unsigned(f.imm & 0xfff, 12) == imm12
    case LoadStoreRegister(_, _, rt, rn, rm, _, _) => ZrField(rt, f.rd) && SpField(rn, f.rn) && ZrField(rm, f.rm)
    case LoadStoreUnscaled(_, _, rt, rn, imm9) =>
      ZrField(rt, f.rd) && SpField(rn, f.rn) && Signed(f.imm & 0x1ff, 9) == imm9
    case LoadStorePair(_, _, rt, rt2, rn, offset) =>
      ZrField(rt, f.rd) && ZrField(rt2, f.ra) && SpField(rn, f.rn) && 8 * Signed(f.imm & 0x7f, 7) == offset
    case Branch(_, imm26) => Signed(f.imm & 0x3ff_ffff, 26) == imm26
    case BranchConditional(cond, imm19) => cond != Invalid && Signed(f.imm & 0x7_ffff, 19) == imm19
    case BranchRegister(_, rn) => ZrField(rn, f.rn)
    case Nop => true
    case ShiftRegister(_, _, rd, rn, rm) => ZrField(rd, f.rd) && ZrField(rn, f.rn) && ZrField(rm, f.rm)
    case Multiply(_, _, rd, rn, rm, ra) =>
      ZrField(rd, f.rd) && ZrField(rn, f.rn) && ZrField(rm, f.rm) && ZrField(ra, f.ra)
    case Bitfield(_, _, rd, rn, immr, imms) =>
      ZrField(rd, f.rd) && ZrField(rn, f.rn) && Unsigned(f.imm & 0x3f, 6) == immr && Unsigned(f.imm2 & 0x3f, 6) == imms
  }

  lemma FieldsMatchAddSubImmediate(i: Instr)
    requires i.AddSubImmediate? && Legal(i)
    ensures Matches(i, FieldsOf(i))
  {
    match i {
      case AddSubImmediate(_, _, s, rd, rn, imm12, _) =>
        EitherRegisterField(s, rd);
        RegisterFields(rn);
        Imm12Field(imm12);
    }
  }

  lemma FieldsMatchAddSubRegister(i: Instr)
    requires i.AddSubRegister? && Legal(i)
    ensures Matches(i, FieldsOf(i))
  {
    match i {
      case AddSubRegister(_, _, _, rd, rn, rm) =>
        ThreeRegisterFields(rd, rn, rm);
    }
  }

  lemma FieldsMatchAddSubExtended(i: Instr)
    requires i.AddSubExtended? && Legal(i)
    ensures Matches(i, FieldsOf(i))
  {
    match i {
      case AddSubExtended(_, _, s, rd, rn, rm, _, amount) =>
        EitherRegisterField(s, rd);
        TwoRegisterFields(rn, rm);
        Imm3Field(amount);
    }
  }

  lemma FieldsMatchLogicalRegister(i: Instr)
    requires i.LogicalRegister? && Legal(i)
    ensures Matches(i, FieldsOf(i))
  {
    match i {
      case LogicalRegister(_, _, rd, rn, rm) =>
        ThreeRegisterFields(rd, rn, rm);
    }
  }

  lemma FieldsMatchMoveWide(i: Instr)
    requires i.MoveWide? && Legal(i)
    ensures Matches(i, FieldsOf(i))
  {
    match i {
      case MoveWide(_, _, rd, imm16, hw) =>
        RegisterFields(rd);
        Imm16Field(imm16);
        HalfwordIndexField(hw);
    }
  }

  lemma FieldsMatchLoadStoreUnsigned(i: Instr)
    requires i.LoadStoreUnsigned? && Legal(i)
    ensures Matches(i, FieldsOf(i))
  {
    match i {
      case LoadStoreUnsigned(_, _, rt, rn, imm12) =>
        TwoRegisterFields(rt, rn);
        Imm12Field(imm12);
    }
  }

  lemma FieldsMatchLoadStoreRegister(i: Instr)
    requires i.LoadStoreRegister? && Legal(i)
    ensures Matches(i, FieldsOf(i))
  {
    match i {
      case LoadStoreRegister(_, _, rt, rn, rm, _, _) =>
        ThreeRegisterFields(rt, rn, rm);
    }
  }

  lemma FieldsMatchLoadStoreUnscaled(i: Instr)
    requires i.LoadStoreUnscaled? && Legal(i)
    ensures Matches(i, FieldsOf(i))
  {
    match i {
      case LoadStoreUnscaled(_, _, rt, rn, imm9) =>
        TwoRegisterFields(rt, rn);
        Imm9Field(imm9);
    }
  }

  lemma FieldsMatchLoadStorePair(i: Instr)
    requires i.LoadStorePair? && Legal(i)
    ensures Matches(i, FieldsOf(i))
  {
    match i {
      case LoadStorePair(_, _, rt, rt2, rn, offset) =>
        ThreeRegisterFields(rt, rt2, rn);
        Imm7Field(offset / 8);
    }
  }

  lemma FieldsMatchBranch(i: Instr)
    requires i.Branch? && Legal(i)
    ensures Matches(i, FieldsOf(i))
  {
    match i {
      case Branch(_, imm26) =>
        Imm26Field(imm26);
    }
  }

  lemma FieldsMatchBranchConditional(i: Instr)
    requires i.BranchConditional? && Legal(i)
    ensures Matches(i, FieldsOf(i))
  {
    match i {
      case BranchConditional(_, imm19) =>
        Imm19Field(imm19);
    }
  }

  lemma FieldsMatchBranchRegister(i: Instr)
    requires i.BranchRegister? && Legal(i)
    ensures Matches(i, FieldsOf(i))
  {
    match i {
      case BranchRegister(_, rn) =>
        RegisterFields(rn);
    }
  }

  lemma FieldsMatchShiftRegister(i: Instr)
    requires i.ShiftRegister? && Legal(i)
    ensures Matches(i, FieldsOf(i))
  {
    match i {
      case ShiftRegister(_, _, rd, rn, rm) =>
        ThreeRegisterFields(rd, rn, rm);
    }
  }

  lemma FieldsMatchMultiply(i: Instr)
    requires i.Multiply? && Legal(i)
    ensures Matches(i, FieldsOf(i))
  {
    match i {
      case Multiply(_, _, rd, rn, rm, ra) =>
        ThreeRegisterFields(rd, rn, rm);
        RegisterFields(ra);
    }
  }

  lemma FieldsMatchBitfield(i: Instr)
    requires i.Bitfield? && Legal(i)
    ensures Matches(i, FieldsOf(i))
  {
    match i {
      case Bitfield(_, _, rd, rn, immr, imms) =>
        TwoRegisterFields(rd, rn);
        Imm6Field(immr);
        Imm6Field(imms);
    }
  }

  lemma FieldsMatch(i: Instr)
    requires Legal(i)
    ensures Matches(i, FieldsOf(i))
  {
    match i {
      case AddSubImmediate(_, _, _, _, _, _, _) => FieldsMatchAddSubImmediate(i);
      case AddSubRegister(_, _, _, _, _, _) => FieldsMatchAddSubRegister(i);
      case AddSubExtended(_, _, _, _, _, _, _, _) => FieldsMatchAddSubExtended(i);
      case LogicalRegister(_, _, _, _, _) => FieldsMatchLogicalRegister(i);
      case MoveWide(_, _, _, _, _) => FieldsMatchMoveWide(i);
      case LoadStoreUnsigned(_, _, _, _, _) => FieldsMatchLoadStoreUnsigned(i);
      case LoadStoreRegister(_, _, _, _, _, _, _) => FieldsMatchLoadStoreRegister(i);
      case LoadStoreUnscaled(_, _, _, _, _) => FieldsMatchLoadStoreUnscaled(i);
      case LoadStorePair(_, _, _, _, _, _) => FieldsMatchLoadStorePair(i);
      case Branch(_, _) => FieldsMatchBranch(i);
      case BranchConditional(_, _) => FieldsMatchBranchConditional(i);
      case BranchRegister(_, _) => FieldsMatchBranchRegister(i);
      case ShiftRegister(_, _, _, _, _) => FieldsMatchShiftRegister(i);
      case Multiply(_, _, _, _, _, _) => FieldsMatchMultiply(i);
      case Bitfield(_, _, _, _, _, _) => FieldsMatchBitfield(i);
      case Nop =>
    }
  }

  lemma DecodeArithmetic(i: Instr, f: Fields)
    requires Arithmetic(i) && Matches(i, f)
    ensures Recovered(i, f)
  {
    match i {
      case AddSubImmediate(sf, op, s, rd, rn, imm12, shift12) =>
        DecodeAddSubImmediate(sf, op, s, rd, rn, imm12, shift12, f);
      case AddSubRegister(sf, op, s, rd, rn, rm) => DecodeAddSubRegister(sf, op, s, rd, rn, rm, f);
      case AddSubExtended(sf, op, s, rd, rn, rm, option, amount) =>
        DecodeAddSubExtended(sf, op, s, rd, rn, rm, option, amount, f);
      case LogicalRegister(sf, op, rd, rn, rm) => DecodeLogicalRegister(sf, op, rd, rn, rm, f);
    }
  }

  lemma DecodeMoves(i: Instr, f: Fields)
    requires Moves(i) && Matches(i, f)
    ensures Recovered(i, f)
  {
    match i {
      case MoveWide(sf, op, rd, imm16, hw) => DecodeMoveWide(sf, op, rd, imm16, hw, f);
      case ShiftRegister(sf, op, rd, rn, rm) => DecodeShiftRegister(sf, op, rd, rn, rm, f);
      case Multiply(sf, op, rd, rn, rm, ra) => DecodeMultiply(sf, op, rd, rn, rm, ra, f);
      case Bitfield(sf, op, rd, rn, immr, imms) => DecodeBitfield(sf, op, rd, rn, immr, imms, f);
    }
  }

  lemma DecodeMemory(i: Instr, f: Fields)
    requires Memory(i) && Matches(i, f)
    ensures Recovered(i, f)
  {
    match i {
      case LoadStoreUnsigned(size, mem, rt, rn, imm12) => DecodeLoadStoreUnsigned(size, mem, rt, rn, imm12, f);
      case LoadStoreRegister(size, mem, rt, rn, rm, option, scaled) =>
        DecodeLoadStoreRegister(size, mem, rt, rn, rm, option, scaled, f);
      case LoadStoreUnscaled(size, mem, rt, rn, imm9) => DecodeLoadStoreUnscaled(size, mem, rt, rn, imm9, f);
      case LoadStorePair(mode, mem, rt, rt2, rn, offset) => DecodeLoadStorePair(mode, mem, rt, rt2, rn, offset, f);
    }
  }

  lemma DecodeBranches(i: Instr, f: Fields)
    requires (i.Branch? || i.BranchConditional?) && Matches(i, f)
    ensures Recovered(i, f)
  {
    if i.Branch? {
      DecodeBranch(i.link, i.imm26, f);
    } else {
      DecodeBranchConditional(i.cond, i.imm19, f);
    }
  }

  lemma DecodeOthers(i: Instr, f: Fields)
    requires (i.BranchRegister? || i.Nop?) && Matches(i, f)
    ensures Recovered(i, f)
  {
    match i {
      case BranchRegister(kind, rn) => DecodeBranchRegister(kind, rn, f);
      case Nop => PackedNop();
    }
  }

  /** The packers keep the fields apart and give each class its own fixed bits. */
  lemma DecodePack(i: Instr, f: Fields)
    requires Matches(i, f)
    ensures Recovered(i, f)
  {
    if Arithmetic(i) {
      DecodeArithmetic(i, f);
    } else if Moves(i) {
      DecodeMoves(i, f);
    } else if Memory(i) {
      DecodeMemory(i, f);
    } else if i.Branch? || i.BranchConditional? {
      DecodeBranches(i, f);
    } else {
      DecodeOthers(i, f);
    }
  }

  /** A legal instruction is recovered from its word: no two fields overlap and no two classes
      share a word. */
  lemma DecodeEncode(i: Instr)
    requires Legal(i)
    ensures Decode(Encode(i)) == Some(i)
  {
    FieldsMatch(i);
    DecodePack(i, FieldsOf(i));
  }

  lemma DecodedArithmeticLegal(c: Class, w: Word)
    requires c.CAddSubImmediate? || c.CAddSubRegister? || c.CAddSubExtended? || c.CLogical?
    ensures DecodeAs(c, w).Some? ==> Legal(DecodeAs(c, w).value)
  {
    Pow2Values();
  }

  lemma DecodedMovesLegal(c: Class, w: Word)
    requires c.CMoveWide? || c.CShiftRegister? || c.CMultiply? || c.CBitfield?
    ensures DecodeAs(c, w).Some? ==> Legal(DecodeAs(c, w).value)
  {
    Pow2Values();
  }

  lemma DecodedMemoryLegal(c: Class, w: Word)
    requires c.CLoadStoreUnsigned? || c.CLoadStoreRegister? || c.CLoadStoreUnscaled? || c.CPair?
    ensures DecodeAs(c, w).Some? ==> Legal(DecodeAs(c, w).value)
  {
    Pow2Values();
  }

  lemma DecodedBranchLegal(w: Word)
    ensures DecodeAs(CBranch, w).Some? ==> Legal(DecodeAs(CBranch, w).value)
  {
    Pow2Values();
  }

  lemma DecodedBranchConditionalLegal(w: Word)
    ensures DecodeAs(CBranchConditional, w).Some? ==> Legal(DecodeAs(CBranchConditional, w).value)
  {
    ConditionalLegal(w & 15, (w >> 5) & 0x7_ffff);
  }

  lemma ConditionalLegal(condF: Word, field: Word)
    ensures ConditionOf(condF) != Invalid ==> Legal(BranchConditional(ConditionOf(condF), Signed(field, 19)))
  {
    Pow2Values();
  }

  lemma DecodedBranchRegisterLegal(w: Word)
    ensures DecodeAs(CBranchRegister, w).Some? ==> Legal(DecodeAs(CBranchRegister, w).value)
  {
  }

  lemma DecodeAsLegal(c: Class, w: Word)
    ensures DecodeAs(c, w).Some? ==> Legal(DecodeAs(c, w).value)
  {
    if c.CAddSubImmediate? || c.CAddSubRegister? || c.CAddSubExtended? || c.CLogical? {
      DecodedArithmeticLegal(c, w);
    } else if c.CMoveWide? || c.CShiftRegister? || c.CMultiply? || c.CBitfield? {
      DecodedMovesLegal(c, w);
    } else if c.CLoadStoreUnsigned? || c.CLoadStoreRegister? || c.CLoadStoreUnscaled? || c.CPair? {
      DecodedMemoryLegal(c, w);
    } else if c.CBranch? {
      DecodedBranchLegal(w);
    } else if c.CBranchConditional? {
      DecodedBranchConditionalLegal(w);
    } else if c.CBranchRegister? {
      DecodedBranchRegisterLegal(w);
    }
  }

  /** Words stand for legal instructions only. */
  lemma DecodeLegal(w: Word)
    ensures Decode(w).Some? ==> Legal(Decode(w).value)
  {
    DecodeAsLegal(ClassOf(w), w);
  }

  /** Exactly the legal instructions are recovered from their words: one with `zr` in an `sp` slot, `sp` in a `zr`
      slot, or an operand out of its range never is. */
  lemma RoundTripsExactly(i: Instr)
    ensures Decode(Encode(i)) == Some(i) <==> Legal(i)
  {
    DecodeLegal(Encode(i));
    if Legal(i) {
      DecodeEncode(i);
    }
  }

  lemma SpilledField(sf: Word, op: Word, s: Word, shift12: Word, imm12: Word, rd: Word)
    requires imm12 & 1 == 0
    ensures AddSubtractImmediate(sf, op, s, shift12, imm12, 0x3f, rd) ==
      AddSubtractImmediate(sf, op, s, shift12, imm12 | 1, 0x1f, rd)
  {
  }

  /** `zr` is not masked in an `sp` slot: its alias spills into the immediate, so that adding an even
      number to `zr` is emitted as adding the next odd one to `sp`. */
  lemma ZrSpillsFromSpSlot(rd: RegisterID)
    requires SpSlot(rd)
    ensures Decode(Encode(AddSubImmediate(D64, Add, false, rd, ZR, 0, false))) ==
      Some(AddSubImmediate(D64, Add, false, rd, SP, 1, false))
  {
    var f := Fields(XOrSp(rd), 0x1f, 0, 0, 1, 0);
    SpilledField(SfField(D64), AddOpField(Add), Flag(false), Flag(false), 0, f.rd);
    ZeroBits(32);
    RegisterFields(rd);
    assert SpField(SP, 0x1f) && Unsigned((1 as Word) & 0xfff, 12) == 1 by {
      OneAndAll();
    }
    DecodeAddSubImmediate(D64, Add, false, rd, SP, 1, false, f);
  }

  lemma OneAndAll()
    ensures Unsigned(0x1f, 5) == 31 && Unsigned(1, 12) == 1
  {
    assert Unsigned(0x1, 1) == 1 && Unsigned(0x3, 2) == 3 && Unsigned(0x7, 3) == 7 && Unsigned(0xf, 4) == 15;
    UnsignedZero(11);
  }

  lemma {:induction false} UnsignedZero(k: nat)
    ensures Unsigned(0, k) == 0
  {
    if k > 0 {
      UnsignedZero(k - 1);
    }
  }
}
