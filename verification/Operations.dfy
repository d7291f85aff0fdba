/** The macro-assembler's operations: the instructions each is lowered to, and what it means. */
module Operations {
  import opened Powers
  import opened Instructions
  import opened Fragments
  import opened Machine
  import opened Logic
  import Modular
  import opened Immediates
  import opened MoveImmediate
  import opened Comparison
  import opened Arithmetic
  import opened Shifts
  import opened Branches
  import opened MemoryAccess
  import opened StackPairs

  datatype ShiftKind = LeftShift | RightShift | UnsignedRightShift

  /** An operation is a call of the macro-assembler. */
  datatype Operation =
    | LogicRegisters(sf: Datasize, logic: LogicKind, op1: RegisterID, op2: RegisterID, dest: RegisterID)
    | Shift32Registers(kind: ShiftKind, src: RegisterID, amount: RegisterID, dest: RegisterID)
    | Mul32(left: RegisterID, right: RegisterID, dest: RegisterID)
    | Neg32(src: RegisterID, dest: RegisterID)
    | PushRegisters(src1: RegisterID, src2: RegisterID)
    | PopRegisters(dest1: RegisterID, dest2: RegisterID)
    | MoveImm(sf: Datasize, raw: int, dest: RegisterID)
    | AddSubImm(sf: Datasize, op: AddOp, imm: I32, src: RegisterID, dest: RegisterID)
    | AddRegisters(sf: Datasize, a: RegisterID, b: RegisterID, dest: RegisterID)
    | SubRegisters(sf: Datasize, left: RegisterID, right: RegisterID, dest: RegisterID)
    | ShiftImm(sf: Datasize, kind: ShiftKind, src: RegisterID, imm: I32, dest: RegisterID)
    | MoveRegister(src: RegisterID, dest: RegisterID)
    | ZeroExtend32(src: RegisterID, dest: RegisterID)
    | Swap(reg1: RegisterID, reg2: RegisterID)
    | AccessAddress(size: MemOpSize, mem: MemOp, rt: RegisterID, base: RegisterID, offset: I32)
    | AccessIndexed(size: MemOpSize, mem: MemOp, rt: RegisterID, address: BaseIndex)
    | Branch32(relation: RelationalCondition, left: RegisterID, right: RegisterID)
    | Branch32Imm(relation: RelationalCondition, left: RegisterID, imm: I32)
    | Branch64(relation: RelationalCondition, left: RegisterID, right: RegisterID)
    | BranchTest(sf: Datasize, result: ResultCondition, reg: RegisterID, mask: RegisterID)
    | BranchAddSub32(op: AddOp, result: ResultCondition, op1: RegisterID, op2: RegisterID, dest: RegisterID)
    | BranchMul32(result: ResultCondition, src1: RegisterID, src2: RegisterID, dest: RegisterID)
    | Jump
    | NearCall

  predicate IsConditional(o: Operation) {
    o.Branch32? || o.Branch32Imm? || o.Branch64? || o.BranchTest? || o.BranchAddSub32? || o.BranchMul32?
  }

  predicate IsBranch(o: Operation) {
    IsConditional(o) || o.Jump? || o.NearCall?
  }

  // ---- Lowering ----

  /** Immediate amounts are masked to the operand size. */
  function ShiftInstr(sf: Datasize, kind: ShiftKind, src: RegisterID, imm: I32, dest: RegisterID): Instr {
    var amount := imm % DatasizeBits(sf);
    match kind
    case LeftShift => LslImm(sf, dest, src, amount)
    case RightShift => AsrImm(sf, dest, src, amount)
    case UnsignedRightShift => LsrImm(sf, dest, src, amount)
  }

  function ShiftRegisterOp(kind: ShiftKind): ShiftOp {
    match kind case LeftShift => Lslv case RightShift => Asrv case UnsignedRightShift => Lsrv
  }

  /** The straight-line part of an operation: all of it, but for the branch at its end. */
  function Body(o: Operation): seq<Instr> {
    match o
    case LogicRegisters(sf, logic, op1, op2, dest) => [LogicalRegister(sf, LogicOp(logic), dest, op1, op2)]
    case Shift32Registers(kind, src, amount, dest) => [ShiftRegister(D32, ShiftRegisterOp(kind), dest, src, amount)]
    case Mul32(left, right, dest) => [Multiply(D32, Madd, dest, left, right, ZR)]
    case Neg32(src, dest) => [AddSubReg(D32, Sub, false, dest, ZR, src)]
    case PushRegisters(src1, src2) => [PushPair(src1, src2)]
    case PopRegisters(dest1, dest2) => [PopPair(dest1, dest2)]
    case MoveImm(sf, raw, dest) => MoveProgram(sf, dest, raw % Modulus(sf))
    case AddSubImm(sf, op, imm, src, dest) => AddSubImmProgram(sf, op, imm, src, dest)
    case AddRegisters(sf, a, b, dest) => AddProgram(sf, a, b, dest)
    case SubRegisters(sf, left, right, dest) => [AddSubReg(sf, Sub, false, dest, left, right)]
    case ShiftImm(sf, kind, src, imm, dest) => [ShiftInstr(sf, kind, src, imm, dest)]
    case MoveRegister(src, dest) => MoveRRProgram(src, dest)
    case ZeroExtend32(src, dest) => ZeroExtend32Program(src, dest)
    case Swap(reg1, reg2) => SwapProgram(reg1, reg2)
    case AccessAddress(size, mem, rt, base, offset) => LoadStoreAddress(size, mem, rt, base, offset)
    case AccessIndexed(size, mem, rt, address) => LoadStoreBaseIndex(size, mem, rt, address)
    case Branch32(_, left, right) => CmpProgram(D32, left, right)
    case Branch32Imm(_, left, imm) => CmpImmProgram(D32, left, imm)
    case Branch64(_, left, right) => Branch64Test(left, right)
    case BranchTest(sf, _, reg, mask) => TestProgram(sf, reg, mask)
    case BranchAddSub32(op, _, op1, op2, dest) => AddSub32Test(op, op1, op2, dest)
    case BranchMul32(result, src1, src2, dest) => Mul32Test(result, src1, src2, dest)
    case Jump => []
    case NearCall => []
  }

  function BranchCondition(o: Operation): Condition
    requires IsConditional(o)
  {
    match o
    case Branch32(relation, _, _) => RelationalArm64Condition(relation)
    case Branch32Imm(relation, _, _) => RelationalArm64Condition(relation)
    case Branch64(relation, _, _) => RelationalArm64Condition(relation)
    case BranchTest(_, result, _, _) => ResultArm64Condition(result)
    case BranchAddSub32(_, result, _, _, _) => ResultArm64Condition(result)
    case BranchMul32(result, _, _, _) => Mul32Condition(result)
  }

  function EndingOf(o: Operation): Ending {
    if IsConditional(o) then Branches(BranchCondition(o))
    else if o.Jump? then Jumps
    else if o.NearCall? then Calls
    else FallsThrough
  }

  function FragmentOf(o: Operation): Fragment {
    Fragment(Body(o), EndingOf(o))
  }

  function Lower(o: Operation): seq<Instr> {
    Instrs(FragmentOf(o))
  }

  // ---- Meaning ----

  /** Multiplied or divided by a power of two; an arithmetic shift divides the signed reading. */
  function ShiftedValue(kind: ShiftKind, x: nat, amount: nat, modulus: nat): int {
    match kind
    case LeftShift => x * Pow2(amount)
    case RightShift => SInt(x, modulus) / Pow2(amount)
    case UnsignedRightShift => x / Pow2(amount)
  }

  /** The state after the body, but for the flags of a conditional branch. */
  function Meaning(s: State, o: Operation): State {
    match o
    case LogicRegisters(sf, logic, op1, op2, dest) =>
      s.SetX(dest, Bitwise(logic, s.Get(sf, op1), s.Get(sf, op2), DatasizeBits(sf)) % Modulus(sf))
    case Shift32Registers(kind, src, amount, dest) =>
      s.SetX(dest, ShiftedValue(kind, s.Get(D32, src), s.X(amount) % 32, 0x1_0000_0000) % 0x1_0000_0000)
    case Mul32(left, right, dest) => s.SetX(dest, s.Get(D32, left) * s.Get(D32, right) % 0x1_0000_0000)
    case Neg32(src, dest) => s.SetX(dest, (0 - s.Get(D32, src)) % 0x1_0000_0000)
    case PushRegisters(src1, src2) => Pushed(s, s.X(src1), s.X(src2), Address(s.X(SP), -16))
    case PopRegisters(dest1, dest2) => Popped(s, dest1, dest2)
    case MoveImm(sf, raw, dest) => s.SetX(dest, raw % Modulus(sf))
    case AddSubImm(sf, op, imm, src, dest) => AfterAddSubImm(s, sf, op, imm, src, dest)
    case AddRegisters(sf, a, b, dest) => s.SetX(dest, (s.Get(sf, a) + s.Get(sf, b)) % Modulus(sf))
    case SubRegisters(sf, left, right, dest) => s.SetX(dest, (s.Get(sf, left) - s.Get(sf, right)) % Modulus(sf))
    case ShiftImm(sf, kind, src, imm, dest) =>
      s.SetX(dest, ShiftedValue(kind, s.Get(sf, src), imm % DatasizeBits(sf), Modulus(sf)) % Modulus(sf))
    case MoveRegister(src, dest) => if src == dest then s else s.SetX(dest, s.X(src))
    case ZeroExtend32(src, dest) => s.SetX(dest, s.X(src) % 0x1_0000_0000)
    case Swap(reg1, reg2) =>
      if reg1 == reg2 then s else s.SetX(IP0, s.X(reg1)).SetX(reg1, s.X(reg2)).SetX(reg2, s.X(reg1))
    case AccessAddress(size, mem, rt, base, offset) =>
      Accessed(s, if UsesScratch(size, offset) then s.SetX(IP1, offset % 0x1_0000_0000_0000_0000) else s,
               size, mem, rt, Address(s.X(base), offset))
    case AccessIndexed(size, mem, rt, address) =>
      Accessed(s, IndexScratch(s, size, address), size, mem, rt, EffectiveAddress(s, address))
    case Branch32(_, _, _) => s
    case Branch32Imm(_, _, imm) => if Foldable(imm) then s else s.SetX(IP0, imm % 0x1_0000_0000)
    case Branch64(_, _, right) => if right == SP then s.SetX(IP0, s.X(SP)) else s
    case BranchTest(_, _, _, _) => s
    case BranchAddSub32(op, _, op1, op2, dest) =>
      s.SetX(dest, Apply(op, s.Get(D32, op1), s.Get(D32, op2)) % 0x1_0000_0000)
    case BranchMul32(result, src1, src2, dest) =>
      if result == Overflow then s.SetX(dest, SignedProduct(s, src1, src2) % 0x1_0000_0000)
      else s.SetX(dest, s.Get(D32, src1) * s.Get(D32, src2) % 0x1_0000_0000)
    case Jump => s
    case NearCall => s
  }

  /** When the branch is taken. */
  predicate Taken(s: State, o: Operation)
    requires IsConditional(o)
  {
    match o
    case Branch32(relation, left, right) => Relation(relation, s.Get(D32, left), s.Get(D32, right), 0x1_0000_0000)
    case Branch32Imm(relation, left, imm) => RelationToImmediate(relation, s.Get(D32, left), imm, 0x1_0000_0000)
    case Branch64(relation, left, right) => Relation(relation, s.X(left), s.X(right), 0x1_0000_0000_0000_0000)
    case BranchTest(sf, result, reg, mask) =>
      ValueCondition(result, BitAnd(s.Get(sf, reg), s.Get(sf, mask)), Modulus(sf))
    case BranchAddSub32(op, result, op1, op2, _) => SumCondition(result, op, s.Get(D32, op1), s.Get(D32, op2))
    case BranchMul32(result, src1, src2, _) =>
      if result == Overflow then !(-0x8000_0000 <= SignedProduct(s, src1, src2) < 0x8000_0000)
      else ValueCondition(result, s.Get(D32, src1) * s.Get(D32, src2) % 0x1_0000_0000, 0x1_0000_0000)
  }

  /** The scratch registers survive, where the chosen path relies on an operand in one. */
  predicate Reliable(o: Operation) {
    match o
    case MoveImm(_, _, dest) => dest != ZR
    case AddSubImm(sf, op, imm, src, dest) => AddSubImmPrecondition(sf, op, imm, src, dest)
    case Swap(reg1, reg2) => reg1 == reg2 || (reg1 != IP0 && reg2 != IP0)
    case AccessAddress(size, mem, rt, base, offset) =>
      UsesScratch(size, offset) ==> base != IP1 && (mem == Store ==> rt != IP1)
    case AccessIndexed(size, mem, rt, address) => BaseIndexPrecondition(size, mem, rt, address)
    case Branch32Imm(_, left, imm) => CmpImmPrecondition(left, imm)
    case Branch64(_, left, right) => right == SP ==> left != IP0
    case BranchMul32(_, _, _, dest) => dest != ZR
    case _ => true
  }

  lemma ShiftMeaning(s: State, sf: Datasize, kind: ShiftKind, src: RegisterID, imm: I32, dest: RegisterID)
    ensures Exec(s, ShiftInstr(sf, kind, src, imm, dest)) ==
      s.SetX(dest, ShiftedValue(kind, s.Get(sf, src), imm % DatasizeBits(sf), Modulus(sf)) % Modulus(sf))
  {
    var amount := imm % DatasizeBits(sf);
    match kind {
      case LeftShift => LslMeaning(s, sf, dest, src, amount);
      case RightShift => AsrMeaning(s, sf, dest, src, amount);
      case UnsignedRightShift => LsrMeaning(s, sf, dest, src, amount);
    }
  }

  lemma ShiftRegisterMeaning(s: State, kind: ShiftKind, src: RegisterID, amount: RegisterID, dest: RegisterID)
    ensures Exec(s, ShiftRegister(D32, ShiftRegisterOp(kind), dest, src, amount)) ==
      s.SetX(dest, ShiftedValue(kind, s.Get(D32, src), s.X(amount) % 32, 0x1_0000_0000) % 0x1_0000_0000)
  {
    var value := ShiftedValue(kind, s.Get(D32, src), s.X(amount) % 32, 0x1_0000_0000);
    Modular.Wrap(value % 0x1_0000_0000, 0x1_0000_0000);
  }

  lemma LogicMeaning(s: State, sf: Datasize, logic: LogicKind, op1: RegisterID, op2: RegisterID, dest: RegisterID)
    ensures Exec(s, LogicalRegister(sf, LogicOp(logic), dest, op1, op2)) ==
      s.SetX(dest, Bitwise(logic, s.Get(sf, op1), s.Get(sf, op2), DatasizeBits(sf)) % Modulus(sf))
  {
    ModulusIsPower(sf);
    LogicalIsBitwise(logic, s.Get(sf, op1), s.Get(sf, op2), DatasizeBits(sf));
    ExecLogical(s, sf, LogicOp(logic), op1, op2, dest);
  }

  lemma ExecLogical(s: State, sf: Datasize, op: LogicalOp, op1: RegisterID, op2: RegisterID, dest: RegisterID)
    requires op != Ands
    ensures Exec(s, LogicalRegister(sf, op, dest, op1, op2)) ==
      s.SetX(dest, Logical(op, s.Get(sf, op1), s.Get(sf, op2)) % Modulus(sf))
  {
  }

  lemma MultiplyMeaning(s: State, left: RegisterID, right: RegisterID, dest: RegisterID)
    ensures Exec(s, Multiply(D32, Madd, dest, left, right, ZR)) ==
      s.SetX(dest, s.Get(D32, left) * s.Get(D32, right) % 0x1_0000_0000)
  {
    assert s.Get(D32, ZR) == 0;
  }

  lemma SubtractionMeaning(s: State, sf: Datasize, left: RegisterID, right: RegisterID, dest: RegisterID)
    ensures Exec(s, AddSubReg(sf, Sub, false, dest, left, right)) ==
      s.SetX(dest, (s.Get(sf, left) - s.Get(sf, right)) % Modulus(sf))
  {
    ExecAddSubReg(s, sf, Sub, false, dest, left, right);
    Modular.Wrap(s.Get(sf, right), Modulus(sf));
    SumWraps(Sub, s.Get(sf, left), s.Get(sf, right), Modulus(sf));
  }

  /** The operations that are one instruction each. */
  predicate OneInstruction(o: Operation) {
    o.LogicRegisters? || o.Shift32Registers? || o.Mul32? || o.Neg32? || o.PushRegisters? || o.PopRegisters? ||
    o.SubRegisters? || o.ShiftImm?
  }

  lemma PairMeaning(s: State, o: Operation)
    requires o.PushRegisters? || o.PopRegisters?
    ensures |Body(o)| == 1 && Exec(s, Body(o)[0]) == Meaning(s, o)
  {
    match o {
      case PushRegisters(src1, src2) => ExecPush(s, src1, src2);
      case PopRegisters(dest1, dest2) => ExecPopped(s, dest1, dest2);
    }
  }

  lemma NegationMeaning(s: State, src: RegisterID, dest: RegisterID)
    ensures Exec(s, AddSubReg(D32, Sub, false, dest, ZR, src)) ==
      s.SetX(dest, (0 - s.Get(D32, src)) % 0x1_0000_0000)
  {
    var x := s.Get(D32, src);
    ExecAddSubReg(s, D32, Sub, false, dest, ZR, src);
    ZeroRegister(s, D32);
    Modular.Wrap(x, 0x1_0000_0000);
    SumWraps(Sub, 0, x, 0x1_0000_0000);
  }

  lemma ZeroRegister(s: State, sf: Datasize)
    ensures s.Get(sf, ZR) == 0
  {
  }

  lemma RegisterMeaning(s: State, o: Operation)
    requires o.LogicRegisters? || o.Mul32?
    ensures |Body(o)| == 1 && Exec(s, Body(o)[0]) == Meaning(s, o)
  {
    match o {
      case LogicRegisters(sf, logic, op1, op2, dest) => LogicMeaning(s, sf, logic, op1, op2, dest);
      case Mul32(left, right, dest) => MultiplyMeaning(s, left, right, dest);
    }
  }

  lemma ShiftedMeaning(s: State, o: Operation)
    requires o.Shift32Registers? || o.ShiftImm?
    ensures |Body(o)| == 1 && Exec(s, Body(o)[0]) == Meaning(s, o)
  {
    match o {
      case Shift32Registers(kind, src, amount, dest) => ShiftRegisterMeaning(s, kind, src, amount, dest);
      case ShiftImm(sf, kind, src, imm, dest) => ShiftMeaning(s, sf, kind, src, imm, dest);
    }
  }

  lemma DifferenceMeaning(s: State, o: Operation)
    requires o.Neg32? || o.SubRegisters?
    ensures |Body(o)| == 1 && Exec(s, Body(o)[0]) == Meaning(s, o)
  {
    match o {
      case Neg32(src, dest) => NegationMeaning(s, src, dest);
      case SubRegisters(sf, left, right, dest) => SubtractionMeaning(s, sf, left, right, dest);
    }
  }

  lemma InstructionMeaning(s: State, o: Operation)
    requires OneInstruction(o)
    ensures |Body(o)| == 1 && Exec(s, Body(o)[0]) == Meaning(s, o)
  {
    if o.LogicRegisters? || o.Mul32? {
      RegisterMeaning(s, o);
    } else if o.Shift32Registers? || o.ShiftImm? {
      ShiftedMeaning(s, o);
    } else if o.Neg32? || o.SubRegisters? {
      DifferenceMeaning(s, o);
    } else {
      PairMeaning(s, o);
    }
  }

  lemma SequenceMeaning(s: State, o: Operation)
    requires !IsBranch(o) && !OneInstruction(o) && Reliable(o)
    ensures ExecAll(s, Body(o)) == Meaning(s, o)
  {
    match o {
      case MoveImm(sf, raw, dest) => MoveSets(s, sf, dest, raw % Modulus(sf));
      case AddSubImm(sf, op, imm, src, dest) => AddSubImmMeaning(s, sf, op, imm, src, dest);
      case AddRegisters(sf, a, b, dest) => AddMeaning(s, sf, a, b, dest);
      case MoveRegister(src, dest) => MoveRRMeaning(s, src, dest);
      case ZeroExtend32(src, dest) => ZeroExtend32Meaning(s, src, dest);
      case Swap(reg1, reg2) =>
        if reg1 != reg2 {
          SwapMeaning(s, reg1, reg2);
        }
      case AccessAddress(size, mem, rt, base, offset) => LoadStoreAddressMeaning(s, size, mem, rt, base, offset);
      case AccessIndexed(size, mem, rt, address) => LoadStoreBaseIndexMeaning(s, size, mem, rt, address);
    }
  }

  /** Every operation that does not branch leaves exactly the state it means. */
  lemma StraightMeaning(s: State, o: Operation)
    requires !IsBranch(o) && Reliable(o)
    ensures ExecAll(s, Body(o)) == Meaning(s, o)
  {
    if OneInstruction(o) {
      InstructionMeaning(s, o);
      assert Body(o) == [Body(o)[0]];
      ExecAllOne(s, Body(o)[0]);
    } else {
      SequenceMeaning(s, o);
    }
  }

  /** Every conditional branch: its condition holds exactly when it is to be taken, and all but the
      flags is the state it means. */
  lemma ConditionalMeaning(s: State, o: Operation)
    requires IsConditional(o) && Reliable(o)
    ensures var after := ExecAll(s, Body(o));
            Holds(after.flags, BranchCondition(o)) == Taken(s, o) && after == Meaning(s, o).(flags := after.flags)
  {
    match o {
      case Branch32(relation, left, right) => Branch32Taken(s, relation, left, right);
      case Branch32Imm(relation, left, imm) => Branch32ImmTaken(s, relation, left, imm);
      case Branch64(relation, left, right) => Branch64Taken(s, relation, left, right);
      case BranchTest(sf, result, reg, mask) => BranchTestTaken(s, sf, result, reg, mask);
      case BranchAddSub32(op, result, op1, op2, dest) => BranchAddSub32Taken(s, result, op, op1, op2, dest);
      case BranchMul32(result, src1, src2, dest) =>
        if result == Overflow {
          BranchMul32OverflowTaken(s, src1, src2, dest);
        } else {
          BranchMul32Taken(s, result, src1, src2, dest);
        }
    }
  }
}
