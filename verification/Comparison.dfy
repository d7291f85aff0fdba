/** Comparisons and the conditions branched on after them. */
module Comparison {
  import opened Instructions
  import opened Machine
  import Modular
  import opened Immediates
  import opened MoveImmediate

  datatype RelationalCondition =
    | Equal | NotEqual | Above | AboveOrEqual | Below | BelowOrEqual
    | GreaterThan | GreaterThanOrEqual | LessThan | LessThanOrEqual

  datatype ResultCondition = Carry | Overflow | Signed | PositiveOrZero | Zero | NonZero

  function RelationalArm64Condition(cond: RelationalCondition): Condition {
    match cond
    case Equal => Eq case NotEqual => Ne case Above => Hi case AboveOrEqual => Hs case Below => Lo
    case BelowOrEqual => Ls case GreaterThan => Gt case GreaterThanOrEqual => Ge case LessThan => Lt
    case LessThanOrEqual => Le
  }

  function ResultArm64Condition(cond: ResultCondition): Condition {
    match cond
    case Carry => Hs case Overflow => Vs case Signed => Mi case PositiveOrZero => Pl case Zero => Eq case NonZero => Ne
  }

  /** What each condition says of two numbers below `modulus`. */
  predicate Relation(cond: RelationalCondition, x: nat, y: nat, modulus: nat) {
    match cond
    case Equal => x == y
    case NotEqual => x != y
    case Above => x > y
    case AboveOrEqual => x >= y
    case Below => x < y
    case BelowOrEqual => x <= y
    case GreaterThan => SInt(x, modulus) > SInt(y, modulus)
    case GreaterThanOrEqual => SInt(x, modulus) >= SInt(y, modulus)
    case LessThan => SInt(x, modulus) < SInt(y, modulus)
    case LessThanOrEqual => SInt(x, modulus) <= SInt(y, modulus)
  }

  // ---- Flags ----

  /** The flags of a subtraction, without division. */
  lemma SubtractFlags(x: nat, y: nat, modulus: nat)
    requires x < modulus && y < modulus && modulus % 2 == 0
    ensures var sum := AddSub(Sub, x, y, modulus);
            var signed := SInt(x, modulus) - SInt(y, modulus);
            && sum.result == (if x >= y then x - y else x - y + modulus)
            && sum.flags.n == (2 * sum.result >= modulus) && sum.flags.z == (x == y) && sum.flags.c == (x >= y)
            && sum.flags.v == !(-(modulus as int) <= 2 * signed < modulus)
  {
    Modular.Wrap(x + (modulus - 1 - y) + 1, modulus);
  }

  lemma AddFlags(x: nat, y: nat, modulus: nat)
    requires x < modulus && y < modulus && modulus % 2 == 0
    ensures var sum := AddSub(Add, x, y, modulus);
            var signed := SInt(x, modulus) + SInt(y, modulus);
            && sum.result == (if x + y < modulus then x + y else x + y - modulus)
            && sum.flags.n == (2 * sum.result >= modulus) && sum.flags.z == (sum.result == 0)
            && sum.flags.c == (x + y >= modulus)
            && sum.flags.v == !(-(modulus as int) <= 2 * signed < modulus)
  {
    Modular.Wrap(x + y, modulus);
  }

  /** After a comparison the condition holds exactly when the relation does. */
  lemma CompareHolds(cond: RelationalCondition, x: nat, y: nat, modulus: nat)
    requires x < modulus && y < modulus && modulus % 2 == 0
    ensures Holds(AddSub(Sub, x, y, modulus).flags, RelationalArm64Condition(cond)) <==> Relation(cond, x, y, modulus)
  {
    SubtractFlags(x, y, modulus);
  }

  /** Adding k sets the same flags as subtracting the wrapped -k. */
  lemma AddOfNegation(x: nat, k: nat, modulus: nat)
    requires x < modulus && 0 < k && 2 * k < modulus && modulus % 2 == 0
    ensures AddSub(Add, x, k, modulus) == AddSub(Sub, x, modulus - k, modulus)
  {
    assert modulus - 1 - (modulus - k) == k - 1;
  }

  // ---- The comparison sequences ----

  /** What `cmp` emits: a subtraction into `zr`. */
  function CmpProgram(sf: Datasize, left: RegisterID, right: RegisterID): seq<Instr> {
    [AddSubReg(sf, Sub, true, ZR, left, right)]
  }

  function MoveIntoScratch(sf: Datasize, imm: I32, dest: RegisterID): seq<Instr> {
    MoveProgram(sf, dest, imm % Modulus(sf))
  }

  /** What `cmp_imm` emits: `cmp`, `cmn` of the negated value, or `cmp` with the scratch register. */
  function CmpImmProgram(sf: Datasize, left: RegisterID, imm: I32): seq<Instr> {
    match TryExtractShiftedImm32(imm)
    case Some(parts) =>
      [AddSubImmediate(sf, if parts.inverted then Add else Sub, true, ZR, left, parts.u12, parts.shift12)]
    case None => MoveIntoScratch(sf, imm, IP0) + CmpProgram(sf, left, IP0)
  }

  lemma CmpSets(s: State, sf: Datasize, left: RegisterID, right: RegisterID)
    ensures ExecAll(s, CmpProgram(sf, left, right)) ==
      s.(flags := AddSub(Sub, s.Get(sf, left), s.Get(sf, right), Modulus(sf)).flags)
  {
    ExecAllOne(s, AddSubReg(sf, Sub, true, ZR, left, right));
    ExecAddSubReg(s, sf, Sub, true, ZR, left, right);
  }

  /** An immediate that does not fold goes through the scratch register, which is then lost as an operand. */
  predicate CmpImmPrecondition(left: RegisterID, imm: I32) {
    Foldable(imm) || left != IP0
  }

  lemma ExecCmpImmediate(s: State, sf: Datasize, op: AddOp, left: RegisterID, u12: nat, shift12: bool, y: nat)
    requires y == (if shift12 then 0x1000 * u12 else u12) && u12 < 0x1000
    ensures y < Modulus(sf)
    ensures ExecAll(s, [AddSubImmediate(sf, op, true, ZR, left, u12, shift12)]) ==
      s.(flags := AddSub(op, s.Get(sf, left), y, Modulus(sf)).flags)
  {
    ExecAllOne(s, AddSubImmediate(sf, op, true, ZR, left, u12, shift12));
    ExecAddSubImmediate(s, sf, op, true, ZR, left, u12, shift12, y);
  }

  /** Whatever the form, the flags are those of comparing with the sign-extended immediate, and no
      register but the scratch changes. */
  lemma CmpImmSets(s: State, sf: Datasize, left: RegisterID, imm: I32)
    requires CmpImmPrecondition(left, imm)
    ensures var flags := AddSub(Sub, s.Get(sf, left), imm % Modulus(sf), Modulus(sf)).flags;
            var after := if Foldable(imm) then s else s.SetX(IP0, imm % Modulus(sf));
            ExecAll(s, CmpImmProgram(sf, left, imm)) == after.(flags := flags)
  {
    ExtractionExact(imm);
    match TryExtractShiftedImm32(imm) {
      case Some(parts) =>
        var y := Magnitude(parts);
        ExecCmpImmediate(s, sf, if parts.inverted then Add else Sub, left, parts.u12, parts.shift12, y);
        Modular.Wrap(imm, Modulus(sf));
        if parts.inverted {
          AddOfNegation(s.Get(sf, left), y, Modulus(sf));
        }
      case None =>
        var value := imm % Modulus(sf);
        MoveSets(s, sf, IP0, value);
        ExecAllAppend(s, MoveIntoScratch(sf, imm, IP0), CmpProgram(sf, left, IP0));
        CmpSets(s.SetX(IP0, value), sf, left, IP0);
        ScratchOnly(s, sf, left, value);
    }
  }

  lemma ScratchOnly(s: State, sf: Datasize, r: RegisterID, value: U64)
    requires value < Modulus(sf) && r != IP0
    ensures s.SetX(IP0, value).Get(sf, r) == s.Get(sf, r)
    ensures s.SetX(IP0, value).Get(sf, IP0) == value
  {
  }

  predicate Compared(s: State, t: State, sf: Datasize, left: RegisterID, imm: I32) {
    t.flags == AddSub(Sub, s.Get(sf, left), imm % Modulus(sf), Modulus(sf)).flags
  }

  /** The flags are those of the comparison from every state. */
  ghost predicate Compares(sf: Datasize, left: RegisterID, imm: I32) {
    forall s: State :: Compared(s, ExecAll(s, CmpImmProgram(sf, left, imm)), sf, left, imm)
  }

  lemma ScratchAgainstItself(s: State, sf: Datasize, imm: I32)
    requires !Foldable(imm)
    ensures var value := imm % Modulus(sf);
            ExecAll(s, CmpImmProgram(sf, IP0, imm)).flags == AddSub(Sub, value, value, Modulus(sf)).flags
  {
    var value := imm % Modulus(sf);
    ExtractionExact(imm);
    MoveSets(s, sf, IP0, value);
    ExecAllAppend(s, MoveIntoScratch(sf, imm, IP0), CmpProgram(sf, IP0, IP0));
    CmpSets(s.SetX(IP0, value), sf, IP0, IP0);
    ScratchHolds(s, sf, value);
  }

  lemma ScratchHolds(s: State, sf: Datasize, value: U64)
    requires value < Modulus(sf)
    ensures s.SetX(IP0, value).Get(sf, IP0) == value
  {
  }

  lemma UnfoldedNotZero(sf: Datasize, imm: I32)
    requires !Foldable(imm)
    ensures 0 < imm % Modulus(sf)
  {
    Modular.Wrap(imm, Modulus(sf));
  }

  /** A number equals itself, and 0 does not equal it. */
  lemma ItselfDiffers(value: nat, m: nat)
    requires 0 < value < m && m % 2 == 0
    ensures AddSub(Sub, value, value, m).flags != AddSub(Sub, 0, value, m).flags
  {
    SubtractFlags(value, value, m);
    SubtractFlags(0, value, m);
  }

  lemma NotCompared(s: State, t: State, sf: Datasize, imm: I32)
    requires !Foldable(imm) && s.X(IP0) == 0
    requires t.flags == AddSub(Sub, imm % Modulus(sf), imm % Modulus(sf), Modulus(sf)).flags
    ensures !Compared(s, t, sf, IP0, imm)
  {
    UnfoldedNotZero(sf, imm);
    ItselfDiffers(imm % Modulus(sf), Modulus(sf));
    assert s.Get(sf, IP0) == 0;
  }

  lemma ScratchLost(s: State, sf: Datasize, imm: I32)
    requires !Foldable(imm) && s.X(IP0) == 0
    ensures !Compared(s, ExecAll(s, CmpImmProgram(sf, IP0, imm)), sf, IP0, imm)
  {
    ScratchAgainstItself(s, sf, imm);
    NotCompared(s, ExecAll(s, CmpImmProgram(sf, IP0, imm)), sf, imm);
  }

  /** The comparison is right from every state exactly when it does not go through the scratch register
      with the scratch register as its operand. */
  lemma CmpImmExact(sf: Datasize, left: RegisterID, imm: I32)
    ensures Compares(sf, left, imm) <==> CmpImmPrecondition(left, imm)
  {
    if CmpImmPrecondition(left, imm) {
      forall s: State
        ensures Compared(s, ExecAll(s, CmpImmProgram(sf, left, imm)), sf, left, imm)
      {
        CmpImmSets(s, sf, left, imm);
      }
    } else {
      var s := State(map[], Flags(false, false, false, false), map[]);
      ScratchLost(s, sf, imm);
    }
  }
}
