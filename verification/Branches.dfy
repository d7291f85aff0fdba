/** The comparison and branch family: when each branch is taken. */
module Branches {
  import opened Logic
  import opened Instructions
  import opened Machine
  import Modular
  import opened Immediates
  import opened Comparison
  import opened Arithmetic

  // ---- The flag-setting sequences in front of the branch ----

  /** `sp` cannot be compared as it is: it is moved to the scratch register first. */
  function Branch64Test(left: RegisterID, right: RegisterID): seq<Instr> {
    if right == SP then MoveRRProgram(SP, IP0) + CmpProgram(D64, left, IP0) else CmpProgram(D64, left, right)
  }

  function TestProgram(sf: Datasize, reg: RegisterID, mask: RegisterID): seq<Instr> {
    [LogicalRegister(sf, Ands, ZR, reg, mask)]
  }

  function AddSub32Test(op: AddOp, op1: RegisterID, op2: RegisterID, dest: RegisterID): seq<Instr> {
    [AddSubReg(D32, op, true, dest, op1, op2)]
  }

  /** The overflow check widens the product; every other condition tests the 32-bit one. */
  function Mul32Test(cond: ResultCondition, src1: RegisterID, src2: RegisterID, dest: RegisterID): seq<Instr> {
    if cond == Overflow then
      [Multiply(D64, Smaddl, dest, src1, src2, ZR), AddSubExtended(D64, Sub, true, ZR, dest, dest, Sxtw, 0)]
      + ZeroExtend32Program(dest, dest)
    else [Multiply(D32, Madd, dest, src1, src2, ZR)] + TestProgram(D32, dest, dest)
  }

  function Mul32Condition(cond: ResultCondition): Condition {
    if cond == Overflow then Ne else ResultArm64Condition(cond)
  }

  // ---- Comparisons ----

  /** `branch32` is taken exactly when the relation holds between the low halves of the registers. */
  lemma Branch32Taken(s: State, cond: RelationalCondition, left: RegisterID, right: RegisterID)
    ensures var after := ExecAll(s, CmpProgram(D32, left, right));
            && Holds(after.flags, RelationalArm64Condition(cond))
               == Relation(cond, s.Get(D32, left), s.Get(D32, right), 0x1_0000_0000)
            && after == s.(flags := after.flags)
  {
    CmpSets(s, D32, left, right);
    CompareHolds(cond, s.Get(D32, left), s.Get(D32, right), 0x1_0000_0000);
  }

  /** A register against an immediate: unsigned conditions read the immediate wrapped. */
  predicate RelationToImmediate(cond: RelationalCondition, x: nat, imm: I32, modulus: nat)
    requires modulus > 0
  {
    match cond
    case Equal => x == imm % modulus
    case NotEqual => x != imm % modulus
    case Above => x > imm % modulus
    case AboveOrEqual => x >= imm % modulus
    case Below => x < imm % modulus
    case BelowOrEqual => x <= imm % modulus
    case GreaterThan => SInt(x, modulus) > imm
    case GreaterThanOrEqual => SInt(x, modulus) >= imm
    case LessThan => SInt(x, modulus) < imm
    case LessThanOrEqual => SInt(x, modulus) <= imm
  }

  lemma ImmediateReadsBack(imm: I32, modulus: nat)
    requires modulus >= 0x1_0000_0000
    ensures SInt(imm % modulus, modulus) == imm
  {
    Modular.Wrap(imm, modulus);
  }

  /** `branch32_imm` is taken exactly when the relation holds, whichever form the comparison takes. */
  lemma Branch32ImmTaken(s: State, cond: RelationalCondition, left: RegisterID, imm: I32)
    requires CmpImmPrecondition(left, imm)
    ensures var after := ExecAll(s, CmpImmProgram(D32, left, imm));
            && Holds(after.flags, RelationalArm64Condition(cond))
               == RelationToImmediate(cond, s.Get(D32, left), imm, 0x1_0000_0000)
            && after == (if Foldable(imm) then s else s.SetX(IP0, imm % 0x1_0000_0000)).(flags := after.flags)
  {
    CmpImmSets(s, D32, left, imm);
    ImmediateReadsBack(imm, 0x1_0000_0000);
    CompareHolds(cond, s.Get(D32, left), imm % 0x1_0000_0000, 0x1_0000_0000);
  }

  lemma SpTestSets(s: State, left: RegisterID)
    requires left != IP0
    ensures ExecAll(s, Branch64Test(left, SP)) ==
      s.SetX(IP0, s.X(SP)).(flags := AddSub(Sub, s.X(left), s.X(SP), 0x1_0000_0000_0000_0000).flags)
  {
    var t := s.SetX(IP0, s.X(SP));
    MoveRRMeaning(s, SP, IP0);
    ExecAllAppend(s, MoveRRProgram(SP, IP0), CmpProgram(D64, left, IP0));
    CmpSets(t, D64, left, IP0);
    SetTwice(s, IP0, s.X(SP), 0);
    assert t.X(left) == s.X(left);
    WholeRegister(t, left);
    WholeRegister(t, IP0);
  }

  lemma Branch64TestSets(s: State, left: RegisterID, right: RegisterID)
    requires right == SP ==> left != IP0
    ensures ExecAll(s, Branch64Test(left, right)) ==
      (if right == SP then s.SetX(IP0, s.X(SP)) else s)
        .(flags := AddSub(Sub, s.X(left), s.X(right), 0x1_0000_0000_0000_0000).flags)
  {
    if right == SP {
      SpTestSets(s, left);
    } else {
      CmpSets(s, D64, left, right);
      WholeRegister(s, left);
      WholeRegister(s, right);
    }
  }

  lemma Branch64Taken(s: State, cond: RelationalCondition, left: RegisterID, right: RegisterID)
    requires right == SP ==> left != IP0
    ensures var after := ExecAll(s, Branch64Test(left, right));
            && Holds(after.flags, RelationalArm64Condition(cond))
               == Relation(cond, s.X(left), s.X(right), 0x1_0000_0000_0000_0000)
            && after == (if right == SP then s.SetX(IP0, s.X(SP)) else s).(flags := after.flags)
  {
    Branch64TestSets(s, left, right);
    CompareHolds(cond, s.X(left), s.X(right), 0x1_0000_0000_0000_0000);
  }

  predicate Compared64(s: State, t: State, left: RegisterID, right: RegisterID) {
    t.flags == AddSub(Sub, s.X(left), s.X(right), 0x1_0000_0000_0000_0000).flags
  }

  /** The flags are those of the comparison from every state. */
  ghost predicate Compares64(left: RegisterID, right: RegisterID) {
    forall s: State :: Compared64(s, ExecAll(s, Branch64Test(left, right)), left, right)
  }

  lemma ScratchLostToSp(s: State)
    requires s.X(IP0) != s.X(SP)
    ensures !Compared64(s, ExecAll(s, Branch64Test(IP0, SP)), IP0, SP)
  {
    var t := s.SetX(IP0, s.X(SP));
    MoveRRMeaning(s, SP, IP0);
    ExecAllAppend(s, MoveRRProgram(SP, IP0), CmpProgram(D64, IP0, IP0));
    CmpSets(t, D64, IP0, IP0);
    SubtractFlags(t.Get(D64, IP0), t.Get(D64, IP0), 0x1_0000_0000_0000_0000);
    SubtractFlags(s.X(IP0), s.X(SP), 0x1_0000_0000_0000_0000);
  }

  /** The comparison is right from every state exactly when the scratch register is not compared with `sp`. */
  lemma Branch64Exact(left: RegisterID, right: RegisterID)
    ensures Compares64(left, right) <==> (right == SP ==> left != IP0)
  {
    if right == SP ==> left != IP0 {
      forall s: State
        ensures Compared64(s, ExecAll(s, Branch64Test(left, right)), left, right)
      {
        Branch64TestSets(s, left, right);
      }
    } else {
      var s := State(map[SP := 1], Flags(false, false, false, false), map[]);
      ScratchLostToSp(s);
    }
  }

  // ---- Addition and subtraction ----

  /** What each condition says of a 32-bit sum or difference. */
  predicate SumCondition(cond: ResultCondition, op: AddOp, x: nat, y: nat) {
    var signed := Apply(op, SInt(x, 0x1_0000_0000), SInt(y, 0x1_0000_0000));
    var wrapped := Apply(op, x, y) % 0x1_0000_0000;
    match cond
    case Carry => if op == Add then x + y >= 0x1_0000_0000 else x >= y
    case Overflow => !(-0x8000_0000 <= signed < 0x8000_0000)
    case Signed => SInt(wrapped, 0x1_0000_0000) < 0
    case PositiveOrZero => SInt(wrapped, 0x1_0000_0000) >= 0
    case Zero => wrapped == 0
    case NonZero => wrapped != 0
  }

  lemma SumHolds(cond: ResultCondition, op: AddOp, x: nat, y: nat)
    requires x < 0x1_0000_0000 && y < 0x1_0000_0000
    ensures Holds(AddSub(op, x, y, 0x1_0000_0000).flags, ResultArm64Condition(cond)) <==> SumCondition(cond, op, x, y)
    ensures AddSub(op, x, y, 0x1_0000_0000).result == Apply(op, x, y) % 0x1_0000_0000
  {
    Modular.Wrap(Apply(op, x, y), 0x1_0000_0000);
    if op == Add {
      AddFlags(x, y, 0x1_0000_0000);
    } else {
      SubtractFlags(x, y, 0x1_0000_0000);
    }
  }

  /** `branch_add32` and `branch_sub32`: the wrapped result is delivered and the branch is taken exactly
      when its condition holds of the exact one; with `Overflow`, when it does not fit 32 signed bits. */
  lemma BranchAddSub32Taken(s: State, cond: ResultCondition, op: AddOp, op1: RegisterID, op2: RegisterID,
                            dest: RegisterID)
    ensures var after := ExecAll(s, AddSub32Test(op, op1, op2, dest));
            && Holds(after.flags, ResultArm64Condition(cond))
               == SumCondition(cond, op, s.Get(D32, op1), s.Get(D32, op2))
            && after == s.SetX(dest, Apply(op, s.Get(D32, op1), s.Get(D32, op2)) % 0x1_0000_0000)
                 .(flags := after.flags)
  {
    ExecAllOne(s, AddSubReg(D32, op, true, dest, op1, op2));
    ExecAddSubReg(s, D32, op, true, dest, op1, op2);
    SumHolds(cond, op, s.Get(D32, op1), s.Get(D32, op2));
  }

  // ---- Bit tests ----

  lemma {:induction false} BitAndSelf(x: nat)
    ensures BitAnd(x, x) == x
  {
    if x > 0 {
      BitAndSelf(x / 2);
    }
  }

  lemma {:induction false} BitAndBelow(x: nat, y: nat)
    ensures BitAnd(x, y) <= x
  {
    if x > 0 && y > 0 {
      BitAndBelow(x / 2, y / 2);
    }
  }

  lemma {:induction false} SomeBit(x: nat) returns (k: nat)
    requires x > 0
    ensures BitAt(x, k)
  {
    if x % 2 == 1 {
      k := 0;
    } else {
      var j := SomeBit(x / 2);
      k := j + 1;
    }
  }

  /** The test is zero exactly when the register and the mask share no bit. */
  lemma NoCommonBit(x: nat, y: nat)
    ensures BitAnd(x, y) == 0 <==> forall k: nat :: !(BitAt(x, k) && BitAt(y, k))
  {
    forall k: nat | BitAnd(x, y) == 0
      ensures !(BitAt(x, k) && BitAt(y, k))
    {
      BitAndBits(x, y, k);
      NoBits(k);
    }
    if BitAnd(x, y) > 0 {
      var k := SomeBit(BitAnd(x, y));
      BitAndBits(x, y, k);
    }
  }

  /** What each condition says of a tested value. */
  predicate ValueCondition(cond: ResultCondition, value: nat, modulus: nat) {
    match cond
    case Carry => false
    case Overflow => false
    case Signed => SInt(value, modulus) < 0
    case PositiveOrZero => SInt(value, modulus) >= 0
    case Zero => value == 0
    case NonZero => value != 0
  }

  /** `branch_test32` and `branch_test64` branch on the masked register and change none. */
  lemma BranchTestTaken(s: State, sf: Datasize, cond: ResultCondition, reg: RegisterID, mask: RegisterID)
    ensures var after := ExecAll(s, TestProgram(sf, reg, mask));
            && Holds(after.flags, ResultArm64Condition(cond))
               == ValueCondition(cond, BitAnd(s.Get(sf, reg), s.Get(sf, mask)), Modulus(sf))
            && after == s.(flags := after.flags)
  {
    ExecAllOne(s, LogicalRegister(sf, Ands, ZR, reg, mask));
    BitAndBelow(s.Get(sf, reg), s.Get(sf, mask));
    Modular.Wrap(BitAnd(s.Get(sf, reg), s.Get(sf, mask)), Modulus(sf));
  }

  // ---- Multiplication ----

  function SignedProduct(s: State, src1: RegisterID, src2: RegisterID): int {
    SInt(s.Get(D32, src1), 0x1_0000_0000) * SInt(s.Get(D32, src2), 0x1_0000_0000)
  }

  lemma ProductBound(a: int, b: int)
    requires -0x8000_0000 <= a < 0x8000_0000 && -0x8000_0000 <= b < 0x8000_0000
    ensures -0x4000_0000_0000_0000 <= a * b <= 0x4000_0000_0000_0000
  {
    if a >= 0 {
      ScaledBound(a, b);
    } else {
      ScaledBound(-a, b);
      assert a * b == -(-a * b);
    }
  }

  lemma ScaledBound(a: nat, b: int)
    requires a <= 0x8000_0000 && -0x8000_0000 <= b <= 0x8000_0000
    ensures -0x4000_0000_0000_0000 <= a * b <= 0x4000_0000_0000_0000
  {
    assert -(0x8000_0000 * a) <= a * b <= 0x8000_0000 * a;
  }

  /** A wrapped 64-bit product equals the sign extension of its low half exactly when the product
      fits 32 signed bits. */
  lemma FitsExactly(p: int, wide: nat, low: nat)
    requires -0x4000_0000_0000_0000 <= p <= 0x4000_0000_0000_0000
    requires wide == p % 0x1_0000_0000_0000_0000 && low == wide % 0x1_0000_0000
    ensures wide == SInt(low, 0x1_0000_0000) % 0x1_0000_0000_0000_0000 <==> -0x8000_0000 <= p < 0x8000_0000
    ensures low == p % 0x1_0000_0000
  {
    Modular.Wrap(p, 0x1_0000_0000_0000_0000);
    Modular.Wrap(SInt(low, 0x1_0000_0000), 0x1_0000_0000_0000_0000);
    Modular.WrapShift(p, 0x1_0000_0000, 0x1_0000_0000);
    Modular.Wrap(p, 0x1_0000_0000);
  }

  lemma ExecWiden(s: State, src1: RegisterID, src2: RegisterID, dest: RegisterID)
    ensures Exec(s, Multiply(D64, Smaddl, dest, src1, src2, ZR)) ==
      s.SetX(dest, SignedProduct(s, src1, src2) % 0x1_0000_0000_0000_0000)
  {
    WidenedProduct(s, src1, src2);
    assert s.Get(D64, ZR) == 0;
  }

  lemma WidenedProduct(s: State, src1: RegisterID, src2: RegisterID)
    ensures Product(Smaddl, s.Get(D64, src1), s.Get(D64, src2)) == SignedProduct(s, src1, src2)
  {
    WholeRegister(s, src1);
    WholeRegister(s, src2);
  }

  lemma ExecCompareExtended(s: State, r: RegisterID)
    ensures Exec(s, AddSubExtended(D64, Sub, true, ZR, r, r, Sxtw, 0)) ==
      s.(flags := AddSub(Sub, s.X(r), SInt(s.X(r) % 0x1_0000_0000, 0x1_0000_0000) % 0x1_0000_0000_0000_0000,
                         0x1_0000_0000_0000_0000).flags)
  {
    WholeRegister(s, r);
  }

  lemma {:induction false} ExecThree(s: State, a: Instr, b: Instr, rest: seq<Instr>)
    ensures ExecAll(s, [a, b] + rest) == ExecAll(Exec(Exec(s, a), b), rest)
  {
    assert [a, b] + rest == [a] + ([b] + rest);
    ExecFirst(s, a, [b] + rest);
    ExecFirst(Exec(s, a), b, rest);
  }

  /** `branch_mul32` with `Overflow`: taken exactly when the signed product does not fit 32 bits; the
      destination holds the low half of the product either way, also when it was a source. */
  lemma BranchMul32OverflowTaken(s: State, src1: RegisterID, src2: RegisterID, dest: RegisterID)
    requires dest != ZR
    ensures var after := ExecAll(s, Mul32Test(Overflow, src1, src2, dest));
            var p := SignedProduct(s, src1, src2);
            && Holds(after.flags, Mul32Condition(Overflow)) == !(-0x8000_0000 <= p < 0x8000_0000)
            && after == s.SetX(dest, p % 0x1_0000_0000).(flags := after.flags)
  {
    var p := SignedProduct(s, src1, src2);
    var wide: U64 := p % 0x1_0000_0000_0000_0000;
    var low := wide % 0x1_0000_0000;
    var t1 := s.SetX(dest, wide);
    var flags := AddSub(Sub, wide, SInt(low, 0x1_0000_0000) % 0x1_0000_0000_0000_0000, 0x1_0000_0000_0000_0000).flags;
    ProductBound(SInt(s.Get(D32, src1), 0x1_0000_0000), SInt(s.Get(D32, src2), 0x1_0000_0000));
    FitsExactly(p, wide, low);
    SubtractFlags(wide, SInt(low, 0x1_0000_0000) % 0x1_0000_0000_0000_0000, 0x1_0000_0000_0000_0000);
    ExecThree(s, Multiply(D64, Smaddl, dest, src1, src2, ZR), AddSubExtended(D64, Sub, true, ZR, dest, dest, Sxtw, 0),
              ZeroExtend32Program(dest, dest));
    ExecWiden(s, src1, src2, dest);
    SetTwice(s, dest, wide, low);
    ExecCompareExtended(t1, dest);
    ZeroExtend32Meaning(t1.(flags := flags), dest, dest);
    assert t1.(flags := flags).SetX(dest, low) == s.SetX(dest, low).(flags := flags);
  }

  /** Any other condition is that of the wrapped product. */
  lemma BranchMul32Taken(s: State, cond: ResultCondition, src1: RegisterID, src2: RegisterID, dest: RegisterID)
    requires dest != ZR && cond != Overflow
    ensures var after := ExecAll(s, Mul32Test(cond, src1, src2, dest));
            var product := s.Get(D32, src1) * s.Get(D32, src2) % 0x1_0000_0000;
            && Holds(after.flags, Mul32Condition(cond)) == ValueCondition(cond, product, 0x1_0000_0000)
            && after == s.SetX(dest, product).(flags := after.flags)
  {
    var product := s.Get(D32, src1) * s.Get(D32, src2) % 0x1_0000_0000;
    ExecFirst(s, Multiply(D32, Madd, dest, src1, src2, ZR), TestProgram(D32, dest, dest));
    ExecMul32(s, src1, src2, dest);
    Overwritten(s, D32, dest, product, dest);
    BranchTestTaken(s.SetX(dest, product), D32, cond, dest, dest);
    BitAndSelf(product);
  }

  lemma ExecMul32(s: State, src1: RegisterID, src2: RegisterID, dest: RegisterID)
    ensures Exec(s, Multiply(D32, Madd, dest, src1, src2, ZR)) ==
      s.SetX(dest, s.Get(D32, src1) * s.Get(D32, src2) % 0x1_0000_0000)
  {
    assert s.Get(D32, ZR) == 0;
  }
}
