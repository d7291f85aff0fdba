/** Programs of operations: the linked bytes do what the operations mean, step for step. */
module ProgramRuns {
  import opened Wrappers
  import opened Instructions
  import opened CodeBuffer
  import opened Machine
  import opened Immediates
  import opened MemoryAccess
  import Comparison
  import Branches
  import opened Fragments
  import opened Operations
  import opened Encodability
  import opened Assembly
  import opened Execution

  function FragmentsOf(ops: seq<Operation>): (fs: seq<Fragment>)
    ensures |fs| == |ops|
  {
    Map(FragmentOf, ops)
  }

  lemma FragmentAt(ops: seq<Operation>, k: nat)
    requires k < |ops|
    ensures FragmentsOf(ops)[k] == FragmentOf(ops[k])
  {
  }

  ghost predicate AllEncodable(ops: seq<Operation>) {
    forall k :: 0 <= k < |ops| ==> Encodable(ops[k])
  }

  ghost predicate AllReliable(ops: seq<Operation>) {
    forall k :: 0 <= k < |ops| ==> Reliable(ops[k])
  }

  /** Encodable operations make legal fragments. */
  lemma OperationsLegal(ops: seq<Operation>)
    requires AllEncodable(ops)
    ensures AllLegal(FragmentsOf(ops))
  {
    var fs := FragmentsOf(ops);
    forall f | f in fs
      ensures LegalFragment(f)
    {
      var k :| 0 <= k < |fs| && fs[k] == f;
      LowerLegal(ops[k]);
    }
  }

  // ---- The meaning of a program ----

  /** One operation: its meaning, and then the next operation or the one it branches to. */
  function StepOperation(ops: seq<Operation>, links: seq<Link>, p: Point): Point
    requires p.at < |ops| && Complete(links, FragmentsOf(ops))
  {
    var o := ops[p.at];
    var after := Meaning(p.state, o);
    FragmentAt(ops, p.at);
    if IsConditional(o) then Point(if Taken(p.state, o) then FindLink(links, p.at).value.to else p.at + 1, after)
    else if o.Jump? then Point(FindLink(links, p.at).value.to, after)
    else if o.NearCall? then
      Point(FindLink(links, p.at).value.to, after.SetX(LR, ReturnAddress(FragmentsOf(ops), p.at)))
    else Point(p.at + 1, after)
  }

  function OperationStepper(ops: seq<Operation>, links: seq<Link>): Point -> Point
    requires Complete(links, FragmentsOf(ops))
  {
    (p: Point) => if p.at < |ops| then StepOperation(ops, links, p) else p
  }

  /** Up to `n` operations, or to the end of the program. */
  function RunOperations(ops: seq<Operation>, links: seq<Link>, p: Point, n: nat): Point
    requires Complete(links, FragmentsOf(ops))
  {
    Iterate(OperationStepper(ops, links), p, n)
  }

  // ---- Flags carry nothing from one operation to another ----

  ghost predicate SameButFlags(s: State, t: State) {
    t == s.(flags := t.flags)
  }

  lemma AccessIgnoresFlags(s: State, u: State, flags: Flags, size: MemOpSize, mem: MemOp, rt: RegisterID, at: U64)
    ensures Accessed(s.(flags := flags), u.(flags := flags), size, mem, rt, at) ==
      Accessed(s, u, size, mem, rt, at).(flags := flags)
  {
    ReadSameMemory(s, s.(flags := flags), at, Bytes(size));
  }

  lemma AddressIgnoresFlags(s: State, flags: Flags, size: MemOpSize, mem: MemOp, rt: RegisterID, base: RegisterID,
                            offset: I32)
    ensures Meaning(s.(flags := flags), AccessAddress(size, mem, rt, base, offset)) ==
      Meaning(s, AccessAddress(size, mem, rt, base, offset)).(flags := flags)
  {
    var u := if UsesScratch(size, offset) then s.SetX(IP1, offset % 0x1_0000_0000_0000_0000) else s;
    AccessIgnoresFlags(s, u, flags, size, mem, rt, Address(s.X(base), offset));
  }

  lemma EffectiveIgnoresFlags(s: State, flags: Flags, address: BaseIndex)
    ensures EffectiveAddress(s.(flags := flags), address) == EffectiveAddress(s, address)
    ensures IndexOffset(s.(flags := flags), address) == IndexOffset(s, address)
  {
  }

  lemma IndexScratchIgnoresFlags(s: State, flags: Flags, size: MemOpSize, address: BaseIndex)
    ensures IndexScratch(s.(flags := flags), size, address) == IndexScratch(s, size, address).(flags := flags)
  {
    EffectiveIgnoresFlags(s, flags, address);
  }

  lemma IndexIgnoresFlags(s: State, flags: Flags, size: MemOpSize, mem: MemOp, rt: RegisterID, address: BaseIndex)
    ensures Meaning(s.(flags := flags), AccessIndexed(size, mem, rt, address)) ==
      Meaning(s, AccessIndexed(size, mem, rt, address)).(flags := flags)
  {
    var t := s.(flags := flags);
    var u, at := IndexScratch(s, size, address), EffectiveAddress(s, address);
    var v, bt := IndexScratch(t, size, address), EffectiveAddress(t, address);
    EffectiveIgnoresFlags(s, flags, address);
    IndexScratchIgnoresFlags(s, flags, size, address);
    AccessIgnoresFlags(s, u, flags, size, mem, rt, at);
  }

  lemma PopIgnoresFlags(s: State, flags: Flags, dest1: RegisterID, dest2: RegisterID)
    ensures Meaning(s.(flags := flags), PopRegisters(dest1, dest2)) ==
      Meaning(s, PopRegisters(dest1, dest2)).(flags := flags)
  {
    ReadSameMemory(s, s.(flags := flags), s.X(SP), 8);
    ReadSameMemory(s, s.(flags := flags), Address(s.X(SP), 8), 8);
  }

  lemma MeaningIgnoresFlags(s: State, flags: Flags, o: Operation)
    ensures Meaning(s.(flags := flags), o) == Meaning(s, o).(flags := flags)
  {
    if o.PopRegisters? {
      PopIgnoresFlags(s, flags, o.dest1, o.dest2);
    } else if o.AccessAddress? {
      AddressIgnoresFlags(s, flags, o.size, o.mem, o.rt, o.base, o.offset);
    } else if o.AccessIndexed? {
      IndexIgnoresFlags(s, flags, o.size, o.mem, o.rt, o.address);
    } else {
      RegistersIgnoreFlags(s, flags, o);
    }
  }

  lemma RegistersIgnoreFlags(s: State, flags: Flags, o: Operation)
    requires !o.AccessAddress? && !o.AccessIndexed? && !o.PopRegisters?
    ensures Meaning(s.(flags := flags), o) == Meaning(s, o).(flags := flags)
  {
    if IsBranch(o) {
      BranchIgnoresFlags(s, flags, o);
    } else if OneInstruction(o) {
      InstructionIgnoresFlags(s, flags, o);
    } else {
      SequenceIgnoresFlags(s, flags, o);
    }
  }

  lemma InstructionIgnoresFlags(s: State, flags: Flags, o: Operation)
    requires OneInstruction(o) && !o.PopRegisters?
    ensures Meaning(s.(flags := flags), o) == Meaning(s, o).(flags := flags)
  {
  }

  lemma SequenceIgnoresFlags(s: State, flags: Flags, o: Operation)
    requires !IsBranch(o) && !OneInstruction(o) && !o.AccessAddress? && !o.AccessIndexed?
    ensures Meaning(s.(flags := flags), o) == Meaning(s, o).(flags := flags)
  {
  }

  lemma BranchIgnoresFlags(s: State, flags: Flags, o: Operation)
    requires IsBranch(o)
    ensures Meaning(s.(flags := flags), o) == Meaning(s, o).(flags := flags)
  {
    if o.BranchMul32? {
      ProductIgnoresFlags(s, flags, o.result, o.src1, o.src2, o.dest);
    } else if o.BranchAddSub32? {
      SumIgnoresFlags(s, flags, o.op, o.result, o.op1, o.op2, o.dest);
    }
  }

  lemma ProductIgnoresFlags(s: State, flags: Flags, result: Comparison.ResultCondition, src1: RegisterID,
                            src2: RegisterID, dest: RegisterID)
    ensures Meaning(s.(flags := flags), BranchMul32(result, src1, src2, dest)) ==
      Meaning(s, BranchMul32(result, src1, src2, dest)).(flags := flags)
  {
    var t := s.(flags := flags);
    assert t.Get(D32, src1) == s.Get(D32, src1) && t.Get(D32, src2) == s.Get(D32, src2);
    assert Branches.SignedProduct(t, src1, src2) == Branches.SignedProduct(s, src1, src2);
  }

  lemma SumIgnoresFlags(s: State, flags: Flags, op: AddOp, result: Comparison.ResultCondition, op1: RegisterID,
                        op2: RegisterID, dest: RegisterID)
    ensures Meaning(s.(flags := flags), BranchAddSub32(op, result, op1, op2, dest)) ==
      Meaning(s, BranchAddSub32(op, result, op1, op2, dest)).(flags := flags)
  {
  }

  lemma TakenIgnoresFlags(s: State, flags: Flags, o: Operation)
    requires IsConditional(o)
    ensures Taken(s.(flags := flags), o) == Taken(s, o)
  {
  }

  /** One operation's fragment goes where the operation does, with the same registers and memory. */
  lemma StepAgrees(ops: seq<Operation>, links: seq<Link>, k: nat, s: State, t: State)
    requires k < |ops| && Complete(links, FragmentsOf(ops)) && Reliable(ops[k]) && SameButFlags(s, t)
    ensures var fs := FragmentsOf(ops);
            var actual := NextPoint(fs, links, k, ExecAll(t, fs[k].body));
            var meant := StepOperation(ops, links, Point(k, s));
            actual.at == meant.at && SameButFlags(meant.state, actual.state)
  {
    var o := ops[k];
    FragmentAt(ops, k);
    MeaningIgnoresFlags(s, t.flags, o);
    if IsConditional(o) {
      TakenIgnoresFlags(s, t.flags, o);
      ConditionalMeaning(t, o);
    } else if !IsBranch(o) {
      StraightMeaning(t, o);
    } else {
      assert ExecAll(t, []) == t;
    }
  }

  lemma FollowOne(code: Code, links: seq<Link>, ops: seq<Operation>, k: nat, s: State, t: State)
    returns (steps: nat, next: State)
    requires Built(code, links, FragmentsOf(ops)) && k < |ops| && Reliable(ops[k]) && SameButFlags(s, t)
    ensures var q := StepOperation(ops, links, Point(k, s));
            && q.at <= |ops| && SameButFlags(q.state, next)
            && Run(code, Cpu(t, 4 * StartOf(FragmentsOf(ops), k)), steps) ==
               Cpu(next, 4 * StartOf(FragmentsOf(ops), q.at))
  {
    var fs := FragmentsOf(ops);
    next := NextPoint(fs, links, k, ExecAll(t, fs[k].body)).state;
    steps := RunFragment(code, links, fs, k, t);
    StepAgrees(ops, links, k, s, t);
  }

  // ---- Whole runs ----

  /** The machine gets from the start of fragment `k` in state `t` to the point `q`, but for the flags. */
  ghost predicate ReachesIn(code: Code, fs: seq<Fragment>, k: nat, t: State, q: Point, steps: nat, next: State)
    requires k <= |fs| && q.at <= |fs|
  {
    SameButFlags(q.state, next) && Run(code, Cpu(t, 4 * StartOf(fs, k)), steps) == Cpu(next, 4 * StartOf(fs, q.at))
  }

  ghost predicate Reaches(code: Code, fs: seq<Fragment>, k: nat, t: State, q: Point)
    requires k <= |fs|
  {
    q.at <= |fs| && exists steps: nat, next: State :: ReachesIn(code, fs, k, t, q, steps, next)
  }

  lemma StaysPut(code: Code, fs: seq<Fragment>, p: Point, t: State)
    requires p.at <= |fs| && SameButFlags(p.state, t)
    ensures Reaches(code, fs, p.at, t, p)
  {
    assert ReachesIn(code, fs, p.at, t, p, 0, t);
  }

  /** Every step of an abstract machine is one the bytes can make. */
  ghost predicate Follows(code: Code, fs: seq<Fragment>, step: Point -> Point) {
    forall p: Point, t: State {:trigger Reaches(code, fs, p.at, t, step(p))} ::
      p.at <= |fs| && SameButFlags(p.state, t) ==> Reaches(code, fs, p.at, t, step(p))
  }

  lemma ReachesOn(code: Code, fs: seq<Fragment>, step: Point -> Point, k: nat, t: State, q: Point)
    requires Follows(code, fs, step) && k <= |fs| && Reaches(code, fs, k, t, q)
    ensures Reaches(code, fs, k, t, step(q))
  {
    var steps: nat, next: State :| ReachesIn(code, fs, k, t, q, steps, next);
    assert Reaches(code, fs, q.at, next, step(q));
    var more: nat, last: State :| ReachesIn(code, fs, q.at, next, step(q), more, last);
    RunOn(code, Cpu(t, 4 * StartOf(fs, k)), steps, more);
    assert ReachesIn(code, fs, k, t, step(q), steps + more, last);
  }

  lemma {:induction false} FollowsOn(code: Code, fs: seq<Fragment>, step: Point -> Point, p: Point, t: State, n: nat)
    requires Follows(code, fs, step) && p.at <= |fs| && SameButFlags(p.state, t)
    ensures Reaches(code, fs, p.at, t, Iterate(step, p, n))
    decreases n
  {
    if n == 0 {
      StaysPut(code, fs, p, t);
    } else {
      FollowsOn(code, fs, step, p, t, n - 1);
      ReachesOn(code, fs, step, p.at, t, Iterate(step, p, n - 1));
      IterateOn(step, p, n - 1, 1);
      assert Iterate(step, Iterate(step, p, n - 1), 1) == step(Iterate(step, p, n - 1));
    }
  }

  lemma OperationsFollow(code: Code, links: seq<Link>, ops: seq<Operation>)
    requires Built(code, links, FragmentsOf(ops)) && AllReliable(ops) && AllEncodable(ops)
    ensures Follows(code, FragmentsOf(ops), OperationStepper(ops, links))
  {
    var fs := FragmentsOf(ops);
    var step := OperationStepper(ops, links);
    forall p: Point, t: State | p.at <= |fs| && SameButFlags(p.state, t)
      ensures Reaches(code, fs, p.at, t, step(p))
    {
      if p.at < |ops| {
        var steps, next := FollowOne(code, links, ops, p.at, p.state, t);
        assert ReachesIn(code, fs, p.at, t, step(p), steps, next);
      } else {
        StaysPut(code, fs, p, t);
      }
    }
  }

  /** The bytes follow the program: however many operations it runs, from any point and state, the machine
      reaches the same operation's first word with the same registers and memory. */
  lemma BytesFollowProgram(code: Code, links: seq<Link>, ops: seq<Operation>, p: Point, t: State, n: nat)
    requires AllReliable(ops) && AllEncodable(ops) && WellFormed(links, FragmentsOf(ops))
    requires Addressable(FragmentsOf(ops)) && Complete(links, FragmentsOf(ops))
    requires LinkedCode(links, FragmentsOf(ops)) == Ok(code)
    requires p.at <= |ops| && SameButFlags(p.state, t)
    ensures Reaches(code, FragmentsOf(ops), p.at, t, RunOperations(ops, links, p, n))
  {
    OperationsLegal(ops);
    OperationsFollow(code, links, ops);
    FollowsOn(code, FragmentsOf(ops), OperationStepper(ops, links), p, t, n);
  }
}
