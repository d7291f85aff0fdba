/** Which operands an operation can be given: every instruction it is lowered to is then legal. */
module Encodability {
  import opened Instructions
  import opened Fragments
  import opened Machine
  import opened Immediates
  import opened MoveImmediate
  import opened Comparison
  import opened Arithmetic
  import opened Branches
  import opened MemoryAccess
  import opened Operations

  // ---- Operand slots ----

  predicate AddSubRegSlots(setFlags: bool, rd: RegisterID, rn: RegisterID, rm: RegisterID) {
    rm != SP && (rd == SP || rn == SP ==> SpSlot(rn) && ZrOrSpSlot(setFlags, rd))
  }

  predicate MovRegSlots(rd: RegisterID, rm: RegisterID) {
    rd == SP || rm == SP ==> rd != ZR && rm != ZR
  }

  predicate MoveSlots(src: RegisterID, dest: RegisterID) {
    src == dest || (src == ZR && dest != SP) || MovRegSlots(dest, src)
  }

  predicate AddSlots(a: RegisterID, b: RegisterID, dest: RegisterID) {
    if b == SP then AddSubRegSlots(false, dest, b, a) else AddSubRegSlots(false, dest, a, b)
  }

  predicate AddSubImmSlots(sf: Datasize, op: AddOp, imm: I32, src: RegisterID, dest: RegisterID) {
    if Foldable(imm) then src != ZR && dest != ZR
    else if sf == D32 && op == Add && src != dest then
      dest != SP && if src == SP then dest != ZR else true
    else AddSubRegSlots(false, dest, src, IP0)
  }

  /** The operands every instruction of the operation has a slot for. */
  predicate Encodable(o: Operation) {
    match o
    case LogicRegisters(_, _, op1, op2, dest) => op1 != SP && op2 != SP && dest != SP
    case Shift32Registers(_, src, amount, dest) => src != SP && amount != SP && dest != SP
    case Mul32(left, right, dest) => left != SP && right != SP && dest != SP
    case Neg32(src, dest) => src != SP && dest != SP
    case PushRegisters(src1, src2) => src1 != SP && src2 != SP
    case PopRegisters(dest1, dest2) => dest1 != SP && dest2 != SP
    case MoveImm(_, _, dest) => dest != SP
    case AddSubImm(sf, op, imm, src, dest) => AddSubImmSlots(sf, op, imm, src, dest)
    case AddRegisters(_, a, b, dest) => AddSlots(a, b, dest)
    case SubRegisters(_, left, right, dest) => AddSubRegSlots(false, dest, left, right)
    case ShiftImm(_, _, src, _, dest) => src != SP && dest != SP
    case MoveRegister(src, dest) => MoveSlots(src, dest)
    case ZeroExtend32(src, dest) => (src == ZR && dest != SP) || MovRegSlots(dest, src)
    case Swap(reg1, reg2) =>
      reg1 == reg2 || (MoveSlots(reg1, IP0) && MoveSlots(reg2, reg1) && MoveSlots(IP0, reg2))
    case AccessAddress(_, _, rt, base, _) => rt != SP && base != ZR
    case AccessIndexed(_, _, rt, address) => rt != SP && address.base != ZR && address.index != SP
    case Branch32(_, _, right) => right != SP
    case Branch32Imm(_, left, imm) => Foldable(imm) ==> left != ZR
    case Branch64(_, _, _) => true
    case BranchTest(_, _, reg, mask) => reg != SP && mask != SP
    case BranchAddSub32(_, _, op1, op2, dest) => AddSubRegSlots(true, dest, op1, op2)
    case BranchMul32(result, src1, src2, dest) =>
      src1 != SP && src2 != SP && dest != SP && (result == Overflow ==> dest != ZR)
    case Jump => true
    case NearCall => true
  }

  // ---- Programs ----

  lemma {:induction false} FillLegal(sf: Datasize, dest: RegisterID, ds: seq<Digit>, skip: Digit, from: nat,
                                     needClear: bool)
    requires dest != SP && |ds| == HalfwordCount(sf) && from <= |ds|
    ensures StraightProgram(FillProgram(sf, dest, ds, skip, from, needClear))
    decreases |ds| - from
  {
    if from < |ds| {
      FillLegal(sf, dest, ds, skip, from + 1, needClear && ds[from] == skip);
    }
  }

  lemma MoveLegal(sf: Datasize, dest: RegisterID, value: nat)
    requires dest != SP && value < Modulus(sf)
    ensures StraightProgram(MoveProgram(sf, dest, value))
  {
    FillLegal(sf, dest, Halfwords(value, HalfwordCount(sf)), 0, 0, true);
    FillLegal(sf, dest, Halfwords(value, HalfwordCount(sf)), 0xffff, 0, true);
  }

  lemma AddSubRegLegal(sf: Datasize, op: AddOp, setFlags: bool, rd: RegisterID, rn: RegisterID, rm: RegisterID)
    requires AddSubRegSlots(setFlags, rd, rn, rm)
    ensures Legal(AddSubReg(sf, op, setFlags, rd, rn, rm)) && !Branching(AddSubReg(sf, op, setFlags, rd, rn, rm))
  {
  }

  lemma MovRegLegal(sf: Datasize, rd: RegisterID, rm: RegisterID)
    requires MovRegSlots(rd, rm)
    ensures Legal(MovReg(sf, rd, rm)) && !Branching(MovReg(sf, rd, rm))
  {
  }

  lemma MoveRRLegal(src: RegisterID, dest: RegisterID)
    requires MoveSlots(src, dest)
    ensures StraightProgram(MoveRRProgram(src, dest))
  {
    if src != dest && !(src == ZR && dest != SP) {
      MovRegLegal(D64, dest, src);
    }
  }

  lemma FoldedLegal(sf: Datasize, op: AddOp, imm: I32, src: RegisterID, dest: RegisterID)
    requires Foldable(imm) && src != ZR && dest != ZR
    ensures TryExtractShiftedImm32(imm).Some?
    ensures StraightProgram(FoldedProgram(sf, op, TryExtractShiftedImm32(imm).value, src, dest))
  {
    ExtractionExact(imm);
  }

  lemma AddSubImmLegal(sf: Datasize, op: AddOp, imm: I32, src: RegisterID, dest: RegisterID)
    requires AddSubImmSlots(sf, op, imm, src, dest)
    ensures StraightProgram(AddSubImmProgram(sf, op, imm, src, dest))
  {
    ExtractionExact(imm);
    if Foldable(imm) {
      FoldedLegal(sf, op, imm, src, dest);
    } else if sf == D32 && op == Add && src != dest {
      MoveLegal(D32, dest, imm % 0x1_0000_0000);
      if src == SP {
        AddSubRegLegal(D32, Add, false, dest, src, dest);
      } else {
        AddSubRegLegal(D32, Add, false, dest, dest, src);
      }
      StraightAppend(MoveProgram(D32, dest, imm % 0x1_0000_0000), AddRRProgram(src, dest));
    } else {
      MoveLegal(sf, IP0, imm % Modulus(sf));
      AddSubRegLegal(sf, op, false, dest, src, IP0);
      StraightAppend(MoveProgram(sf, IP0, imm % Modulus(sf)), [AddSubReg(sf, op, false, dest, src, IP0)]);
    }
  }

  lemma AddLegal(sf: Datasize, a: RegisterID, b: RegisterID, dest: RegisterID)
    requires AddSlots(a, b, dest)
    ensures StraightProgram(AddProgram(sf, a, b, dest))
  {
    if b == SP {
      AddSubRegLegal(sf, Add, false, dest, b, a);
    } else {
      AddSubRegLegal(sf, Add, false, dest, a, b);
    }
  }

  lemma SwapLegal(reg1: RegisterID, reg2: RegisterID)
    requires MoveSlots(reg1, IP0) && MoveSlots(reg2, reg1) && MoveSlots(IP0, reg2)
    ensures StraightProgram(SwapProgram(reg1, reg2))
  {
    MoveRRLegal(reg1, IP0);
    MoveRRLegal(reg2, reg1);
    MoveRRLegal(IP0, reg2);
    StraightAppend(MoveRRProgram(reg1, IP0), MoveRRProgram(reg2, reg1));
    StraightAppend(MoveRRProgram(reg1, IP0) + MoveRRProgram(reg2, reg1), MoveRRProgram(IP0, reg2));
  }

  lemma CmpImmLegal(left: RegisterID, imm: I32)
    requires Foldable(imm) ==> left != ZR
    ensures StraightProgram(CmpImmProgram(D32, left, imm))
  {
    ExtractionExact(imm);
    if !Foldable(imm) {
      MoveLegal(D32, IP0, imm % 0x1_0000_0000);
      StraightAppend(MoveIntoScratch(D32, imm, IP0), CmpProgram(D32, left, IP0));
    }
  }

  lemma Branch64Legal(left: RegisterID, right: RegisterID)
    ensures StraightProgram(Branch64Test(left, right))
  {
    if right == SP {
      MoveRRLegal(SP, IP0);
      StraightAppend(MoveRRProgram(SP, IP0), CmpProgram(D64, left, IP0));
    }
  }

  lemma AddressLegal(size: MemOpSize, mem: MemOp, rt: RegisterID, base: RegisterID, offset: I32)
    requires rt != SP && base != ZR
    ensures StraightProgram(LoadStoreAddress(size, mem, rt, base, offset))
  {
    SignedImm9Range(offset);
    if IsValidSignedImm9(offset) {
    } else if IsValidScaledUImm12(size, offset) {
      ScaledUImm12Rebuilds(size, offset);
    } else {
      MoveLegal(D64, IP1, offset % 0x1_0000_0000_0000_0000);
      StraightAppend(OffsetInScratch(offset), [LoadStoreRegister(size, mem, rt, base, IP1, Uxtx, false)]);
    }
  }

  lemma IndexedLegal(size: MemOpSize, mem: MemOp, rt: RegisterID, address: BaseIndex)
    requires rt != SP && address.base != ZR && address.index != SP
    ensures StraightProgram(LoadStoreBaseIndex(size, mem, rt, address))
  {
    var extend := IndexExtendType(address.extend);
    ExtractionExact(address.offset);
    if FoldsIndex(size, address) {
      if address.offset != 0 {
        FoldedLegal(D64, Add, address.offset, address.base, IP1);
      }
    } else {
      MoveLegal(D64, IP1, address.offset % 0x1_0000_0000_0000_0000);
      StraightAppend(OffsetInScratch(address.offset),
                  [AddSubExtended(D64, Add, false, IP1, IP1, address.index, extend, ScaleLog2(address.scale)),
                   LoadStoreRegister(size, mem, rt, address.base, IP1, Uxtx, false)]);
    }
  }

  lemma Mul32Legal(result: ResultCondition, src1: RegisterID, src2: RegisterID, dest: RegisterID)
    requires src1 != SP && src2 != SP && dest != SP && (result == Overflow ==> dest != ZR)
    ensures StraightProgram(Mul32Test(result, src1, src2, dest))
  {
    if result == Overflow {
      MovRegLegal(D32, dest, dest);
    }
  }

  /** The body of every operation is straight-line code. */
  lemma BodyLegal(o: Operation)
    requires Encodable(o)
    ensures StraightProgram(Body(o))
  {
    match o {
      case LogicRegisters(sf, logic, op1, op2, dest) =>
      case Shift32Registers(kind, src, amount, dest) =>
      case Mul32(left, right, dest) =>
      case Neg32(src, dest) => AddSubRegLegal(D32, Sub, false, dest, ZR, src);
      case PushRegisters(src1, src2) =>
      case PopRegisters(dest1, dest2) =>
      case MoveImm(sf, raw, dest) => MoveLegal(sf, dest, raw % Modulus(sf));
      case AddSubImm(sf, op, imm, src, dest) => AddSubImmLegal(sf, op, imm, src, dest);
      case AddRegisters(sf, a, b, dest) => AddLegal(sf, a, b, dest);
      case SubRegisters(sf, left, right, dest) => AddSubRegLegal(sf, Sub, false, dest, left, right);
      case ShiftImm(sf, kind, src, imm, dest) =>
      case MoveRegister(src, dest) => MoveRRLegal(src, dest);
      case ZeroExtend32(src, dest) =>
        if !(src == ZR && dest != SP) {
          MovRegLegal(D32, dest, src);
        }
      case Swap(reg1, reg2) =>
        if reg1 != reg2 {
          SwapLegal(reg1, reg2);
        }
      case AccessAddress(size, mem, rt, base, offset) => AddressLegal(size, mem, rt, base, offset);
      case AccessIndexed(size, mem, rt, address) => IndexedLegal(size, mem, rt, address);
      case Branch32(_, left, right) =>
      case Branch32Imm(_, left, imm) => CmpImmLegal(left, imm);
      case Branch64(_, left, right) => Branch64Legal(left, right);
      case BranchTest(sf, _, reg, mask) =>
      case BranchAddSub32(op, _, op1, op2, dest) => AddSubRegLegal(D32, op, true, dest, op1, op2);
      case BranchMul32(result, src1, src2, dest) => Mul32Legal(result, src1, src2, dest);
      case Jump =>
      case NearCall =>
    }
  }

  lemma ConditionValid(o: Operation)
    requires IsConditional(o)
    ensures BranchCondition(o) != Condition.Invalid
  {
  }

  lemma LowerLegal(o: Operation)
    requires Encodable(o)
    ensures LegalFragment(FragmentOf(o)) && LegalProgram(Lower(o))
  {
    BodyLegal(o);
    if IsConditional(o) {
      ConditionValid(o);
    }
    LegalInstrs(FragmentOf(o));
  }

  // ---- Other operands reach a slot that cannot name them ----

  ghost predicate HasIllegal(program: seq<Instr>) {
    exists i :: i in program && !Legal(i)
  }

  lemma IllegalPart(a: seq<Instr>, b: seq<Instr>)
    ensures HasIllegal(a) || HasIllegal(b) ==> HasIllegal(a + b)
  {
    if HasIllegal(a) {
      var i :| i in a && !Legal(i);
      assert i in a + b;
    } else if HasIllegal(b) {
      var i :| i in b && !Legal(i);
      assert i in a + b;
    }
  }

  lemma IllegalOne(i: Instr)
    requires !Legal(i)
    ensures HasIllegal([i])
  {
    assert i in [i];
  }

  lemma {:induction false} FillIllegal(sf: Datasize, ds: seq<Digit>, skip: Digit, from: nat, needClear: bool)
    requires from <= |ds|
    ensures forall i :: i in FillProgram(sf, SP, ds, skip, from, needClear) ==> !Legal(i)
    decreases |ds| - from
  {
    if from < |ds| {
      FillIllegal(sf, ds, skip, from + 1, false);
      FillIllegal(sf, ds, skip, from + 1, needClear);
    }
  }

  lemma MoveIllegal(sf: Datasize, value: nat)
    requires value < Modulus(sf)
    ensures HasIllegal(MoveProgram(sf, SP, value))
  {
    var program, ds := MoveProgram(sf, SP, value), Halfwords(value, HalfwordCount(sf));
    FillIllegal(sf, ds, 0, 0, true);
    FillIllegal(sf, ds, 0xffff, 0, true);
    MoveLength(sf, SP, value);
    assert program[0] in program;
  }

  lemma AddSubRegIllegal(sf: Datasize, op: AddOp, setFlags: bool, rd: RegisterID, rn: RegisterID, rm: RegisterID)
    requires !AddSubRegSlots(setFlags, rd, rn, rm)
    ensures HasIllegal([AddSubReg(sf, op, setFlags, rd, rn, rm)])
  {
    IllegalOne(AddSubReg(sf, op, setFlags, rd, rn, rm));
  }

  lemma MoveRRIllegal(src: RegisterID, dest: RegisterID)
    requires !MoveSlots(src, dest)
    ensures HasIllegal(MoveRRProgram(src, dest))
  {
    IllegalOne(MovReg(D64, dest, src));
  }

  lemma AddIllegal(sf: Datasize, a: RegisterID, b: RegisterID, dest: RegisterID)
    requires !AddSlots(a, b, dest)
    ensures HasIllegal(AddProgram(sf, a, b, dest))
  {
    if b == SP {
      AddSubRegIllegal(sf, Add, false, dest, b, a);
    } else {
      AddSubRegIllegal(sf, Add, false, dest, a, b);
    }
  }

  lemma FoldedIllegal(sf: Datasize, op: AddOp, imm: I32, src: RegisterID, dest: RegisterID)
    requires Foldable(imm) && (src == ZR || dest == ZR)
    ensures TryExtractShiftedImm32(imm).Some?
    ensures HasIllegal(FoldedProgram(sf, op, TryExtractShiftedImm32(imm).value, src, dest))
  {
    ExtractionExact(imm);
    IllegalOne(FoldedProgram(sf, op, TryExtractShiftedImm32(imm).value, src, dest)[0]);
  }

  lemma AddSubImmIllegal(sf: Datasize, op: AddOp, imm: I32, src: RegisterID, dest: RegisterID)
    requires !AddSubImmSlots(sf, op, imm, src, dest)
    ensures HasIllegal(AddSubImmProgram(sf, op, imm, src, dest))
  {
    ExtractionExact(imm);
    if Foldable(imm) {
      FoldedIllegal(sf, op, imm, src, dest);
    } else if sf == D32 && op == Add && src != dest {
      IllegalPart(MoveProgram(D32, dest, imm % 0x1_0000_0000), AddRRProgram(src, dest));
      if dest == SP {
        MoveIllegal(D32, imm % 0x1_0000_0000);
      } else {
        AddSubRegIllegal(D32, Add, false, dest, src, dest);
      }
    } else {
      IllegalPart(MoveProgram(sf, IP0, imm % Modulus(sf)), [AddSubReg(sf, op, false, dest, src, IP0)]);
      AddSubRegIllegal(sf, op, false, dest, src, IP0);
    }
  }

  lemma SwapIllegal(reg1: RegisterID, reg2: RegisterID)
    requires reg1 != reg2 && !(MoveSlots(reg1, IP0) && MoveSlots(reg2, reg1) && MoveSlots(IP0, reg2))
    ensures HasIllegal(SwapProgram(reg1, reg2))
  {
    var a, b, c := MoveRRProgram(reg1, IP0), MoveRRProgram(reg2, reg1), MoveRRProgram(IP0, reg2);
    IllegalPart(a, b);
    IllegalPart(a + b, c);
    if !MoveSlots(reg1, IP0) {
      MoveRRIllegal(reg1, IP0);
    } else if !MoveSlots(reg2, reg1) {
      MoveRRIllegal(reg2, reg1);
    } else {
      MoveRRIllegal(IP0, reg2);
    }
  }

  lemma AddressIllegal(size: MemOpSize, mem: MemOp, rt: RegisterID, base: RegisterID, offset: I32)
    requires rt == SP || base == ZR
    ensures HasIllegal(LoadStoreAddress(size, mem, rt, base, offset))
  {
    IllegalOne(LoadStoreRegister(size, mem, rt, base, IP1, Uxtx, false));
    IllegalPart(OffsetInScratch(offset), [LoadStoreRegister(size, mem, rt, base, IP1, Uxtx, false)]);
    if IsValidSignedImm9(offset) || IsValidScaledUImm12(size, offset) {
      IllegalOne(LoadStoreAddress(size, mem, rt, base, offset)[0]);
    }
  }

  lemma IndexedIllegal(size: MemOpSize, mem: MemOp, rt: RegisterID, address: BaseIndex)
    requires rt == SP || address.base == ZR || address.index == SP
    ensures HasIllegal(LoadStoreBaseIndex(size, mem, rt, address))
  {
    var extend, folded := IndexExtendType(address.extend), TryFoldBaseAndOffset(address);
    ExtractionExact(address.offset);
    if ScaleIsValidForSize(size, address.scale) && folded.Some? {
      var last := LoadStoreRegister(size, mem, rt, folded.value.base, address.index, extend, address.scale != TimesOne);
      IllegalPart(folded.value.program, [last]);
      if address.offset != 0 && address.base == ZR {
        FoldedIllegal(D64, Add, address.offset, ZR, IP1);
      } else {
        IllegalOne(last);
      }
    } else {
      var sum := AddSubExtended(D64, Add, false, IP1, IP1, address.index, extend, ScaleLog2(address.scale));
      var last := LoadStoreRegister(size, mem, rt, address.base, IP1, Uxtx, false);
      assert [sum, last] == [sum] + [last];
      IllegalPart([sum], [last]);
      IllegalPart(OffsetInScratch(address.offset), [sum, last]);
      IllegalOne(if address.index == SP then sum else last);
    }
  }

  lemma Mul32Illegal(result: ResultCondition, src1: RegisterID, src2: RegisterID, dest: RegisterID)
    requires src1 == SP || src2 == SP || dest == SP || (result == Overflow && dest == ZR)
    ensures HasIllegal(Mul32Test(result, src1, src2, dest))
  {
    var program := Mul32Test(result, src1, src2, dest);
    var i := if src1 == SP || src2 == SP || dest == SP then 0 else 1;
    assert program[i] in program && !Legal(program[i]);
  }

  /** The operations whose body begins with the instruction that has no slot for an operand. */
  predicate ShowsFirst(o: Operation) {
    o.LogicRegisters? || o.Shift32Registers? || o.Mul32? || o.PushRegisters? || o.PopRegisters? || o.ShiftImm? ||
    o.ZeroExtend32? || o.Branch32? || o.BranchTest? || o.BranchAddSub32?
  }

  lemma FirstIllegal(o: Operation)
    requires !Encodable(o) && ShowsFirst(o)
    ensures HasIllegal(Body(o))
  {
    IllegalOne(Body(o)[0]);
  }

  lemma CmpImmIllegal(left: RegisterID, imm: I32)
    requires Foldable(imm) && left == ZR
    ensures HasIllegal(CmpImmProgram(D32, left, imm))
  {
    ExtractionExact(imm);
    IllegalOne(CmpImmProgram(D32, left, imm)[0]);
  }

  /** The body of an operation with other operands has an instruction without a slot for one of them. */
  lemma BodyIllegal(o: Operation)
    requires !Encodable(o)
    ensures HasIllegal(Body(o))
  {
    if ShowsFirst(o) {
      FirstIllegal(o);
    } else {
      match o {
        case Neg32(src, dest) => AddSubRegIllegal(D32, Sub, false, dest, ZR, src);
        case MoveImm(sf, raw, dest) => MoveIllegal(sf, raw % Modulus(sf));
        case AddSubImm(sf, op, imm, src, dest) => AddSubImmIllegal(sf, op, imm, src, dest);
        case AddRegisters(sf, a, b, dest) => AddIllegal(sf, a, b, dest);
        case SubRegisters(sf, left, right, dest) => AddSubRegIllegal(sf, Sub, false, dest, left, right);
        case MoveRegister(src, dest) => MoveRRIllegal(src, dest);
        case Swap(reg1, reg2) => SwapIllegal(reg1, reg2);
        case AccessAddress(size, mem, rt, base, offset) => AddressIllegal(size, mem, rt, base, offset);
        case AccessIndexed(size, mem, rt, address) => IndexedIllegal(size, mem, rt, address);
        case Branch32Imm(_, left, imm) => CmpImmIllegal(left, imm);
        case BranchMul32(result, src1, src2, dest) => Mul32Illegal(result, src1, src2, dest);
        case _ =>
      }
    }
  }

  /** Exactly the operations with encodable operands are lowered to legal instructions only. */
  lemma LowerLegalExactly(o: Operation)
    ensures LegalProgram(Lower(o)) <==> Encodable(o)
  {
    if Encodable(o) {
      LowerLegal(o);
    } else {
      BodyIllegal(o);
      IllegalPart(Body(o), Tail(EndingOf(o)));
    }
  }
}
