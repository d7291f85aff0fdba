/** Emitting a program through the macro-assembler and linking it in place. */
module Pipeline {
  import opened Wrappers
  import opened Words
  import opened Instructions
  import opened CodeBuffer
  import Logic
  import StackPairs
  import opened Fragments
  import opened Operations
  import opened LinkRecords
  import opened Labels
  import opened Linking
  import opened MacroAssembler
  import opened Assembly
  import opened ProgramRuns

  /** What emitting an operation hands back. */
  datatype Token = NoToken | JumpSite(jump: JumpToken) | CallSite(call: CallToken)

  function RecordOfToken(token: Token, target: AssemblerLabel): LinkRecord
    requires !token.NoToken?
  {
    if token.JumpSite? then token.jump.ToLinkRecord(target) else token.call.ToLinkRecord(target)
  }

  function TokenFor(f: Fragment, start: nat): Token {
    match f.ending
    case FallsThrough => NoToken
    case Branches(_) => JumpSite(TokenOf(start, f))
    case Jumps => JumpSite(JumpToken(LabelOf(start + |f.body|), JumpNoCondition, Condition.Invalid))
    case Calls => CallSite(CallToken(LabelOf(start + |f.body|), LinkableNear))
  }

  lemma TokensAgree(f: Fragment, start: nat, target: AssemblerLabel)
    requires !f.ending.FallsThrough?
    ensures RecordOfToken(TokenFor(f, start), target) == TokenRecord(f, start, target)
  {
  }

  method EmitStraight(masm: MacroAssemblerArm64, o: Operation)
    requires masm.Valid() && !IsBranch(o)
    modifies masm
    ensures masm.Valid() && masm.program == old(masm.program) + Body(o)
  {
    match o {
      case LogicRegisters(sf, logic, op1, op2, dest) =>
        masm.Insn(LogicalRegister(sf, Logic.LogicOp(logic), dest, op1, op2));
      case Shift32Registers(kind, src, amount, dest) =>
        masm.Insn(ShiftRegister(D32, ShiftRegisterOp(kind), dest, src, amount));
      case Mul32(left, right, dest) => masm.Insn(Multiply(D32, Madd, dest, left, right, ZR));
      case Neg32(src, dest) => masm.SubRegistersOp(D32, ZR, src, dest);
      case PushRegisters(src1, src2) => masm.Insn(StackPairs.PushPair(src1, src2));
      case PopRegisters(dest1, dest2) => masm.Insn(StackPairs.PopPair(dest1, dest2));
      case MoveImm(sf, raw, dest) => masm.MoveInternal(raw, sf, dest);
      case AddSubImm(sf, op, imm, src, dest) =>
        if sf == D64 {
          masm.AddSubImm64(op, imm, src, dest);
        } else {
          masm.AddSubImm32(op, imm, src, dest);
        }
      case AddRegisters(sf, a, b, dest) => masm.AddRegistersOp(sf, a, b, dest);
      case SubRegisters(sf, left, right, dest) => masm.SubRegistersOp(sf, left, right, dest);
      case ShiftImm(sf, kind, src, imm, dest) => masm.ShiftImmOp(sf, kind, src, imm, dest);
      case MoveRegister(src, dest) => masm.MoveRR(src, dest);
      case ZeroExtend32(src, dest) => masm.ZeroExtend32ToWord(src, dest);
      case Swap(reg1, reg2) => masm.SwapRegisters(reg1, reg2);
      case AccessAddress(size, mem, rt, base, offset) => masm.LoadStoreAddressOp(size, mem, rt, base, offset);
      case AccessIndexed(size, mem, rt, address) => masm.LoadStoreBaseIndexOp(size, mem, rt, address);
    }
  }

  method EmitConditional(masm: MacroAssemblerArm64, o: Operation) returns (jump: JumpToken)
    requires masm.Valid() && IsConditional(o)
    modifies masm
    ensures masm.Valid() && masm.program == old(masm.program) + Lower(o)
    ensures jump == TokenOf(|old(masm.program)|, FragmentOf(o))
  {
    match o {
      case Branch32(relation, left, right) => jump := masm.Branch32Op(relation, left, right);
      case Branch32Imm(relation, left, imm) => jump := masm.Branch32ImmOp(relation, left, imm);
      case Branch64(relation, left, right) => jump := masm.Branch64Op(relation, left, right);
      case BranchTest(sf, result, reg, mask) => jump := masm.BranchTestOp(sf, result, reg, mask);
      case BranchAddSub32(op, result, op1, op2, dest) => jump := masm.BranchAddSub32Op(op, result, op1, op2, dest);
      case BranchMul32(result, src1, src2, dest) => jump := masm.BranchMul32Op(result, src1, src2, dest);
    }
  }

  method Emit(masm: MacroAssemblerArm64, o: Operation) returns (token: Token)
    requires masm.Valid()
    modifies masm
    ensures masm.Valid() && masm.program == old(masm.program) + Lower(o)
    ensures token == TokenFor(FragmentOf(o), |old(masm.program)|)
  {
    if IsConditional(o) {
      var jump := EmitConditional(masm, o);
      token := JumpSite(jump);
    } else if o.Jump? {
      var jump := masm.JumpOp();
      token := JumpSite(jump);
    } else if o.NearCall? {
      var call := masm.NearCallOp();
      token := CallSite(call);
    } else {
      EmitStraight(masm, o);
      token := NoToken;
    }
  }

  /** The labels in front of the first `n` fragments, and the one after them. */
  ghost predicate LabelsOf(fs: seq<Fragment>, labels: seq<AssemblerLabel>, n: nat)
    requires n <= |fs|
  {
    |labels| == n + 1 && forall k {:trigger labels[k]} :: 0 <= k <= n ==> labels[k] == LabelAt(fs, k)
  }

  /** The tokens of the first `n` fragments. */
  ghost predicate TokensOf(fs: seq<Fragment>, tokens: seq<Token>, n: nat)
    requires n <= |fs|
  {
    |tokens| == n && forall k {:trigger tokens[k]} :: 0 <= k < n ==> tokens[k] == TokenFor(fs[k], StartOf(fs, k))
  }

  lemma OneMore(fs: seq<Fragment>, labels: seq<AssemblerLabel>, tokens: seq<Token>, n: nat, end: AssemblerLabel,
                token: Token)
    requires n < |fs| && LabelsOf(fs, labels, n) && TokensOf(fs, tokens, n)
    requires end == LabelAt(fs, n + 1) && token == TokenFor(fs[n], StartOf(fs, n))
    ensures LabelsOf(fs, labels + [end], n + 1) && TokensOf(fs, tokens + [token], n + 1)
  {
  }

  lemma FirstLabel(fs: seq<Fragment>)
    ensures Assemble(fs[..0]) == [] && LabelsOf(fs, [0], 0) && TokensOf(fs, [], 0)
  {
  }

  /** Emits the next operation of a program. */
  method EmitNext(masm: MacroAssemblerArm64, ops: seq<Operation>, k: nat) returns (token: Token, end: AssemblerLabel)
    requires masm.Valid() && k < |ops| && masm.program == Assemble(FragmentsOf(ops)[..k])
    modifies masm
    ensures masm.Valid() && masm.program == Assemble(FragmentsOf(ops)[..k + 1])
    ensures token == TokenFor(FragmentsOf(ops)[k], StartOf(FragmentsOf(ops), k))
    ensures end == LabelAt(FragmentsOf(ops), k + 1)
  {
    StartOfNext(FragmentsOf(ops), k);
    FragmentAt(ops, k);
    token := Emit(masm, ops[k]);
    end := masm.CurrentLabel();
  }

  /** Emits the operations in order, taking a label in front of each and one at the end. */
  method EmitAll(ops: seq<Operation>)
    returns (masm: MacroAssemblerArm64, labels: seq<AssemblerLabel>, tokens: seq<Token>)
    ensures fresh(masm) && masm.Valid() && masm.program == Assemble(FragmentsOf(ops))
    ensures LabelsOf(FragmentsOf(ops), labels, |ops|)
    ensures TokensOf(FragmentsOf(ops), tokens, |ops|)
  {
    ghost var fs := FragmentsOf(ops);
    masm := new MacroAssemblerArm64();
    labels, tokens := [masm.CurrentLabel()], [];
    FirstLabel(fs);
    var k := 0;
    while k < |ops|
      invariant 0 <= k <= |ops| && fresh(masm) && masm.Valid() && masm.program == Assemble(fs[..k])
      invariant LabelsOf(fs, labels, k) && TokensOf(fs, tokens, k)
    {
      var token, end := EmitNext(masm, ops, k);
      OneMore(fs, labels, tokens, k, end, token);
      tokens := tokens + [token];
      labels := labels + [end];
      k := k + 1;
    }
    assert fs[..k] == fs;
  }

  /** Links the records one after the other, stopping at the first error. */
  method LinkRecordsInPlace(code: array<Byte>, records: seq<LinkRecord>) returns (result: Result<(), Arm64LinkError>)
    modifies code
    ensures match LinkAll(records, old(code[..]))
            case Ok(linked) => result == Ok(()) && code[..] == linked
            case Err(error) => result == Err(error)
  {
    var k := 0;
    while k < |records|
      invariant 0 <= k <= |records|
      invariant LinkAll(records[k..], code[..]) == LinkAll(records, old(code[..]))
    {
      assert records[k..][0] == records[k] && records[k..][1..] == records[k + 1..];
      var record := new Arm64LinkRecord(records[k]);
      result := record.LinkInPlace(code);
      if result.Err? {
        return;
      }
      k := k + 1;
    }
    result := Ok(());
  }

  /** The records of the linked tokens, each with the label it is linked to. */
  method CollectRecords(ghost fs: seq<Fragment>, links: seq<Link>, labels: seq<AssemblerLabel>, tokens: seq<Token>)
    returns (records: seq<LinkRecord>)
    requires WellFormed(links, fs) && LabelsOf(fs, labels, |fs|) && TokensOf(fs, tokens, |fs|)
    ensures records == RecordsOf(links, fs)
  {
    records := [];
    var k := 0;
    while k < |links|
      invariant 0 <= k <= |links| && |records| == k
      invariant forall j {:trigger records[j]} :: 0 <= j < k ==> records[j] == RecordsOf(links, fs)[j]
    {
      assert links[k] in links;
      TokensAgree(fs[links[k].source], StartOf(fs, links[k].source), labels[links[k].to]);
      records := records + [RecordOfToken(tokens[links[k].source], labels[links[k].to])];
      k := k + 1;
    }
  }

  /** The buffer copied out for linking. */
  method CopyOut(bytes: Code) returns (code: array<Byte>)
    ensures fresh(code) && code[..] == bytes
  {
    code := new Byte[|bytes|](i requires 0 <= i < |bytes| => bytes[i]);
  }

  /** Emits the operations, turns the tokens of the linked ones into records and patches the code in place. */
  method AssembleAndLink(ops: seq<Operation>, links: seq<Link>)
    returns (code: array<Byte>, result: Result<(), Arm64LinkError>)
    requires WellFormed(links, FragmentsOf(ops))
    ensures fresh(code)
    ensures match LinkedCode(links, FragmentsOf(ops))
            case Ok(linked) => result == Ok(()) && code[..] == linked
            case Err(error) => result == Err(error)
  {
    var masm, labels, tokens := EmitAll(ops);
    EncodesIsEncodeAll(masm.buffer, masm.program);
    var records := CollectRecords(FragmentsOf(ops), links, labels, tokens);
    code := CopyOut(masm.buffer);
    result := LinkRecordsInPlace(code, records);
  }
}
