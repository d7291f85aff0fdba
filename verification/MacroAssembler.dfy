/** The macro-assembler: every operation appends the words of its lowering to one code buffer. */
module MacroAssembler {
  import opened Wrappers
  import opened Instructions
  import opened Fragments
  import opened CodeBuffer
  import opened Machine
  import opened Immediates
  import opened MoveImmediate
  import opened Comparison
  import opened Arithmetic
  import opened MemoryAccess
  import opened Operations
  import opened LinkRecords
  import opened Labels

  class MacroAssemblerArm64 {
    var buffer: Code
    ghost var program: seq<Instr>

    /** The buffer holds exactly the words of the instructions emitted so far. */
    ghost predicate Valid()
      reads this
    {
      Encodes(buffer, program)
    }

    constructor ()
      ensures Valid() && program == []
    {
      buffer := [];
      program := [];
    }

    method Insn(i: Instr)
      requires Valid()
      modifies this
      ensures Valid() && program == old(program) + [i]
    {
      EncodesAppend(buffer, program, i);
      buffer := buffer + Emitted(i);
      program := program + [i];
    }

    /** The offset is kept in 32 bits. */
    function CurrentLabel(): AssemblerLabel
      reads this
    {
      |buffer| % 0x1_0000_0000
    }

    // ---- Moves ----

    /** The vote between clearing to zeros and clearing to ones. */
    method Vote(halfwords: seq<Digit>) returns (vote: int)
      ensures vote == CountOf(halfwords, 0) - CountOf(halfwords, 0xffff)
    {
      vote := 0;
      var i := 0;
      while i < |halfwords|
        invariant 0 <= i <= |halfwords|
        invariant vote + CountOf(halfwords[i..], 0) - CountOf(halfwords[i..], 0xffff) ==
                  CountOf(halfwords, 0) - CountOf(halfwords, 0xffff)
      {
        assert halfwords[i..][1..] == halfwords[i + 1..];
        if halfwords[i] == 0 {
          vote := vote + 1;
        } else if halfwords[i] == 0xffff {
          vote := vote - 1;
        }
        i := i + 1;
      }
    }

    /** One clearing move, then `movk`, over the halfwords that differ from `skip`. */
    method Fill(sf: Datasize, dest: RegisterID, halfwords: seq<Digit>, skip: Digit)
      requires Valid()
      modifies this
      ensures Valid() && program == old(program) + FillProgram(sf, dest, halfwords, skip, 0, true)
    {
      var needClear := true;
      var i := 0;
      while i < |halfwords|
        invariant 0 <= i <= |halfwords| && Valid()
        invariant program + FillProgram(sf, dest, halfwords, skip, i, needClear) ==
                  old(program) + FillProgram(sf, dest, halfwords, skip, 0, true)
      {
        var h := halfwords[i];
        if h != skip {
          if !needClear {
            Insn(MoveWide(sf, MovK, dest, h, i));
          } else if skip == 0 {
            Insn(MoveWide(sf, MovZ, dest, h, i));
          } else {
            Insn(MoveWide(sf, MovN, dest, 0xffff - h, i));
          }
          needClear := false;
        }
        i := i + 1;
      }
    }

    /** `move_internal`: the raw bits, masked to the operand size. */
    method MoveInternal(raw: int, sf: Datasize, dest: RegisterID)
      requires Valid()
      modifies this
      ensures Valid() && program == old(program) + MoveProgram(sf, dest, raw % Modulus(sf))
    {
      var value := raw % Modulus(sf);
      if value == 0 {
        Insn(MoveWide(sf, MovZ, dest, 0, 0));
        return;
      }
      if value == Modulus(sf) - 1 {
        Insn(MoveWide(sf, MovN, dest, 0, 0));
        return;
      }
      var halfwords := Halfwords(value, HalfwordCount(sf));
      var vote := Vote(halfwords);
      if vote >= 0 {
        Fill(sf, dest, halfwords, 0);
      } else {
        Fill(sf, dest, halfwords, 0xffff);
      }
    }

    /** The encoder's own `movz`/`movk` sequence. */
    method EmitMoveImmediate64(dest: RegisterID, value: U64)
      requires Valid()
      modifies this
      ensures Valid() && program == old(program) + MoveImmediate64Program(dest, value)
    {
      var emittedMovz := false;
      var halfwords := Halfwords(value, 4);
      var i := 0;
      while i < 4
        invariant 0 <= i <= 4 && Valid()
        invariant program + FillProgram(D64, dest, halfwords, 0, i, !emittedMovz) ==
                  old(program) + FillProgram(D64, dest, halfwords, 0, 0, true)
        invariant |program| >= |old(program)| && (emittedMovz <==> |program| > |old(program)|)
      {
        if halfwords[i] != 0 {
          Insn(MoveWide(D64, if emittedMovz then MovK else MovZ, dest, halfwords[i], i));
          emittedMovz := true;
        }
        i := i + 1;
      }
      assert program + [] == program;
      if !emittedMovz {
        Insn(MoveWide(D64, MovZ, dest, 0, 0));
      }
    }

    method MoveRR(src: RegisterID, dest: RegisterID)
      requires Valid()
      modifies this
      ensures Valid() && program == old(program) + MoveRRProgram(src, dest)
    {
      if src == dest {
        return;
      }
      if src == ZR && dest != SP {
        Insn(MoveWide(D64, MovZ, dest, 0, 0));
      } else {
        Insn(MovReg(D64, dest, src));
      }
    }

    method ZeroExtend32ToWord(src: RegisterID, dest: RegisterID)
      requires Valid()
      modifies this
      ensures Valid() && program == old(program) + ZeroExtend32Program(src, dest)
    {
      if src == ZR && dest != SP {
        Insn(MoveWide(D32, MovZ, dest, 0, 0));
      } else {
        Insn(MovReg(D32, dest, src));
      }
    }

    method SwapRegisters(reg1: RegisterID, reg2: RegisterID)
      requires Valid()
      modifies this
      ensures Valid() && program == old(program) + SwapProgram(reg1, reg2)
    {
      if reg1 == reg2 {
        return;
      }
      MoveRR(reg1, IP0);
      MoveRR(reg2, reg1);
      MoveRR(IP0, reg2);
    }

    // ---- Addition and subtraction of an immediate ----

    method AddSubImm32(op: AddOp, imm: I32, src: RegisterID, dest: RegisterID)
      requires Valid()
      modifies this
      ensures Valid() && program == old(program) + AddSubImm32Program(op, imm, src, dest)
    {
      var extracted := TryExtractShiftedImm32(imm);
      if extracted.Some? {
        var parts := extracted.value;
        Insn(AddSubImmediate(D32, if parts.inverted then InvertAddOp(op) else op, false, dest, src, parts.u12,
                             parts.shift12));
        return;
      }
      if op == Add && src != dest {
        MoveInternal(imm, D32, dest);
        Add32RR(src, dest);
      } else {
        MoveInternal(imm, D32, IP0);
        Insn(AddSubReg(D32, op, false, dest, src, IP0));
      }
    }

    method AddSubImm64(op: AddOp, imm: I32, src: RegisterID, dest: RegisterID)
      requires Valid()
      modifies this
      ensures Valid() && program == old(program) + AddSubImm64Program(op, imm, src, dest)
    {
      var extracted := TryExtractShiftedImm32(imm);
      if extracted.Some? {
        var parts := extracted.value;
        Insn(AddSubImmediate(D64, if parts.inverted then InvertAddOp(op) else op, false, dest, src, parts.u12,
                             parts.shift12));
        return;
      }
      MoveInternal(imm, D64, IP0);
      Insn(AddSubReg(D64, op, false, dest, src, IP0));
    }

    method Add32RR(src: RegisterID, dest: RegisterID)
      requires Valid()
      modifies this
      ensures Valid() && program == old(program) + AddRRProgram(src, dest)
    {
      if src == SP {
        Insn(AddSubReg(D32, Add, false, dest, src, dest));
      } else {
        Insn(AddSubReg(D32, Add, false, dest, dest, src));
      }
    }

    // ---- Register arithmetic and shifts ----

    method AddRegistersOp(sf: Datasize, a: RegisterID, b: RegisterID, dest: RegisterID)
      requires Valid()
      modifies this
      ensures Valid() && program == old(program) + AddProgram(sf, a, b, dest)
    {
      if b == SP {
        Insn(AddSubReg(sf, Add, false, dest, b, a));
      } else {
        Insn(AddSubReg(sf, Add, false, dest, a, b));
      }
    }

    method SubRegistersOp(sf: Datasize, left: RegisterID, right: RegisterID, dest: RegisterID)
      requires Valid()
      modifies this
      ensures Valid() && program == old(program) + Body(SubRegisters(sf, left, right, dest))
    {
      Insn(AddSubReg(sf, Sub, false, dest, left, right));
    }

    method ShiftImmOp(sf: Datasize, kind: ShiftKind, src: RegisterID, imm: I32, dest: RegisterID)
      requires Valid()
      modifies this
      ensures Valid() && program == old(program) + Body(ShiftImm(sf, kind, src, imm, dest))
    {
      Insn(ShiftInstr(sf, kind, src, imm, dest));
    }

    // ---- Loads and stores ----

    method LoadStoreAddressOp(size: MemOpSize, mem: MemOp, rt: RegisterID, base: RegisterID, offset: I32)
      requires Valid()
      modifies this
      ensures Valid() && program == old(program) + LoadStoreAddress(size, mem, rt, base, offset)
    {
      if IsValidSignedImm9(offset) {
        Insn(LoadStoreUnscaled(size, mem, rt, base, offset));
        return;
      }
      if IsValidScaledUImm12(size, offset) {
        Insn(LoadStoreUnsigned(size, mem, rt, base, offset / Bytes(size)));
        return;
      }
      MoveInternal(offset, D64, IP1);
      Insn(LoadStoreRegister(size, mem, rt, base, IP1, Uxtx, false));
    }

    method FoldBaseAndOffset(address: BaseIndex) returns (base: Option<RegisterID>)
      requires Valid()
      modifies this
      ensures Valid()
      ensures match TryFoldBaseAndOffset(address)
              case Some(folded) => base == Some(folded.base) && program == old(program) + folded.program
              case None => base == None && program == old(program)
    {
      if address.offset == 0 {
        return Some(address.base);
      }
      var extracted := TryExtractShiftedImm32(address.offset);
      if extracted.Some? {
        var parts := extracted.value;
        Insn(AddSubImmediate(D64, if parts.inverted then Sub else Add, false, IP1, address.base, parts.u12,
                             parts.shift12));
        return Some(IP1);
      }
      base := None;
    }

    method LoadStoreBaseIndexOp(size: MemOpSize, mem: MemOp, rt: RegisterID, address: BaseIndex)
      requires Valid()
      modifies this
      ensures Valid() && program == old(program) + LoadStoreBaseIndex(size, mem, rt, address)
    {
      var extend := IndexExtendType(address.extend);
      if ScaleIsValidForSize(size, address.scale) {
        var base := FoldBaseAndOffset(address);
        if base.Some? {
          Insn(LoadStoreRegister(size, mem, rt, base.value, address.index, extend, address.scale != TimesOne));
          return;
        }
      }
      MoveInternal(address.offset, D64, IP1);
      Insn(AddSubExtended(D64, Add, false, IP1, IP1, address.index, extend, ScaleLog2(address.scale)));
      Insn(LoadStoreRegister(size, mem, rt, address.base, IP1, Uxtx, false));
    }

    // ---- Comparisons and branches ----

    method Cmp(sf: Datasize, left: RegisterID, right: RegisterID)
      requires Valid()
      modifies this
      ensures Valid() && program == old(program) + CmpProgram(sf, left, right)
    {
      Insn(AddSubReg(sf, Sub, true, ZR, left, right));
    }

    method CmpImm(sf: Datasize, left: RegisterID, imm: I32)
      requires Valid()
      modifies this
      ensures Valid() && program == old(program) + CmpImmProgram(sf, left, imm)
    {
      var extracted := TryExtractShiftedImm32(imm);
      if extracted.Some? {
        var parts := extracted.value;
        Insn(AddSubImmediate(sf, if parts.inverted then Add else Sub, true, ZR, left, parts.u12, parts.shift12));
      } else {
        MoveInternal(imm, sf, IP0);
        Cmp(sf, left, IP0);
      }
    }

    /** The token names the conditional branch; the reserved word follows it. */
    method MakeBranch(condition: Condition) returns (jump: JumpToken)
      requires Valid()
      modifies this
      ensures Valid() && program == old(program) + [BranchConditional(condition, 0), Nop]
      ensures jump == JumpToken(LabelOf(|old(program)|), JumpCondition, condition)
    {
      var at := CurrentLabel();
      Insn(BranchConditional(condition, 0));
      Insn(Nop);
      jump := JumpToken(at, JumpCondition, condition);
    }

    method Branch32Op(relation: RelationalCondition, left: RegisterID, right: RegisterID) returns (jump: JumpToken)
      requires Valid()
      modifies this
      ensures Valid() && program == old(program) + Lower(Branch32(relation, left, right))
      ensures jump == TokenOf(|old(program)|, FragmentOf(Branch32(relation, left, right)))
    {
      Cmp(D32, left, right);
      jump := MakeBranch(RelationalArm64Condition(relation));
    }

    method Branch32ImmOp(relation: RelationalCondition, left: RegisterID, imm: I32) returns (jump: JumpToken)
      requires Valid()
      modifies this
      ensures Valid() && program == old(program) + Lower(Branch32Imm(relation, left, imm))
      ensures jump == TokenOf(|old(program)|, FragmentOf(Branch32Imm(relation, left, imm)))
    {
      CmpImm(D32, left, imm);
      jump := MakeBranch(RelationalArm64Condition(relation));
    }

    method Branch64Op(relation: RelationalCondition, left: RegisterID, right: RegisterID) returns (jump: JumpToken)
      requires Valid()
      modifies this
      ensures Valid() && program == old(program) + Lower(Branch64(relation, left, right))
      ensures jump == TokenOf(|old(program)|, FragmentOf(Branch64(relation, left, right)))
    {
      if right == SP {
        MoveRR(right, IP0);
        Cmp(D64, left, IP0);
      } else {
        Cmp(D64, left, right);
      }
      jump := MakeBranch(RelationalArm64Condition(relation));
    }

    method BranchTestOp(sf: Datasize, result: ResultCondition, reg: RegisterID, mask: RegisterID)
      returns (jump: JumpToken)
      requires Valid()
      modifies this
      ensures Valid() && program == old(program) + Lower(BranchTest(sf, result, reg, mask))
      ensures jump == TokenOf(|old(program)|, FragmentOf(BranchTest(sf, result, reg, mask)))
    {
      Insn(LogicalRegister(sf, Ands, ZR, reg, mask));
      jump := MakeBranch(ResultArm64Condition(result));
    }

    method BranchAddSub32Op(op: AddOp, result: ResultCondition, op1: RegisterID, op2: RegisterID, dest: RegisterID)
      returns (jump: JumpToken)
      requires Valid()
      modifies this
      ensures Valid() && program == old(program) + Lower(BranchAddSub32(op, result, op1, op2, dest))
      ensures jump == TokenOf(|old(program)|, FragmentOf(BranchAddSub32(op, result, op1, op2, dest)))
    {
      Insn(AddSubReg(D32, op, true, dest, op1, op2));
      jump := MakeBranch(ResultArm64Condition(result));
    }

    method BranchMul32Op(result: ResultCondition, src1: RegisterID, src2: RegisterID, dest: RegisterID)
      returns (jump: JumpToken)
      requires Valid()
      modifies this
      ensures Valid() && program == old(program) + Lower(BranchMul32(result, src1, src2, dest))
      ensures jump == TokenOf(|old(program)|, FragmentOf(BranchMul32(result, src1, src2, dest)))
    {
      if result != Overflow {
        Insn(Multiply(D32, Madd, dest, src1, src2, ZR));
        jump := BranchTestOp(D32, result, dest, dest);
        return;
      }
      Insn(Multiply(D64, Smaddl, dest, src1, src2, ZR));
      Insn(AddSubExtended(D64, Sub, true, ZR, dest, dest, Sxtw, 0));
      ZeroExtend32ToWord(dest, dest);
      jump := MakeBranch(RelationalArm64Condition(NotEqual));
    }

    method JumpOp() returns (jump: JumpToken)
      requires Valid()
      modifies this
      ensures Valid() && program == old(program) + Lower(Jump)
      ensures jump == JumpToken(LabelOf(|old(program)|), JumpNoCondition, Condition.Invalid)
    {
      var at := CurrentLabel();
      Insn(Branch(false, 0));
      jump := JumpToken(at, JumpNoCondition, Condition.Invalid);
    }

    method NearCallOp() returns (call: CallToken)
      requires Valid()
      modifies this
      ensures Valid() && program == old(program) + Lower(NearCall)
      ensures call == CallToken(LabelOf(|old(program)|), LinkableNear)
    {
      var at := CurrentLabel();
      Insn(Branch(true, 0));
      call := CallToken(at, LinkableNear);
    }
  }

  /** The label of the instruction at an index. */
  function LabelOf(index: nat): AssemblerLabel {
    4 * index % 0x1_0000_0000
  }

  /** The token of a conditional branch emitted after `start` instructions. */
  function TokenOf(start: nat, f: Fragment): JumpToken
    requires f.ending.Branches?
  {
    JumpToken(LabelOf(start + |f.body|), JumpCondition, f.ending.cond)
  }
}
