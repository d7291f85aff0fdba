/** What the emitted A64 instructions do, over integers (DDI 0487, sections C1.2.4 and C6.2). */
module Machine {
  import opened Instructions
  import opened Powers
  import Modular

  type U64 = x: int | 0 <= x < 0x1_0000_0000_0000_0000

  type U8 = x: int | 0 <= x < 256

  datatype Flags = Flags(n: bool, z: bool, c: bool, v: bool)

  /** Registers and memory bytes not yet written read as 0; `SP` is register 31. */
  datatype State = State(regs: map<RegisterID, U64>, flags: Flags, memory: map<U64, U8>) {

    function X(r: RegisterID): U64 {
      if r == ZR then 0 else if r in regs then regs[r] else 0
    }

    function SetX(r: RegisterID, value: U64): State {
      if r == ZR then this else this.(regs := regs[r := value])
    }

    /** The register as an operand of the given size. */
    function Get(sf: Datasize, r: RegisterID): U64 {
      X(r) % Modulus(sf)
    }

    function Byte(at: U64): U8 {
      if at in memory then memory[at] else 0
    }
  }

  lemma SetTwice(s: State, r: RegisterID, a: U64, b: U64)
    ensures s.SetX(r, a).SetX(r, b) == s.SetX(r, b)
    ensures r != ZR ==> s.SetX(r, a).X(r) == a
  {
    if r != ZR {
      assert s.SetX(r, a).regs[r] == a;
    }
  }

  lemma WholeRegister(s: State, r: RegisterID)
    ensures s.Get(D64, r) == s.X(r)
  {
  }

  function Modulus(sf: Datasize): (m: nat)
    ensures 0 < m <= 0x1_0000_0000_0000_0000
  {
    if sf == D64 then 0x1_0000_0000_0000_0000 else 0x1_0000_0000
  }

  /** Two's complement reading of a number below `modulus`. */
  function SInt(x: nat, modulus: nat): int {
    if 2 * x < modulus then x else x - modulus
  }

  // ---- Addition with flags ----

  datatype Sum = Sum(result: nat, flags: Flags)

  function AddWithCarry(x: nat, y: nat, carry: nat, modulus: nat): (sum: Sum)
    requires modulus > 0
    ensures sum.result < modulus
  {
    var unsignedSum := x + y + carry;
    var signedSum := SInt(x, modulus) + SInt(y, modulus) + carry;
    var result := unsignedSum % modulus;
    Sum(result, Flags(2 * result >= modulus, result == 0, result != unsignedSum, SInt(result, modulus) != signedSum))
  }

  function AddSub(op: AddOp, x: nat, y: nat, modulus: nat): (sum: Sum)
    requires x < modulus && y < modulus
    ensures sum.result < modulus
  {
    if op == Add then AddWithCarry(x, y, 0, modulus) else AddWithCarry(x, modulus - 1 - y, 1, modulus)
  }

  predicate Holds(flags: Flags, cond: Condition) {
    match cond
    case Eq => flags.z
    case Ne => !flags.z
    case Hs => flags.c
    case Lo => !flags.c
    case Mi => flags.n
    case Pl => !flags.n
    case Vs => flags.v
    case Vc => !flags.v
    case Hi => flags.c && !flags.z
    case Ls => !(flags.c && !flags.z)
    case Ge => flags.n == flags.v
    case Lt => flags.n != flags.v
    case Gt => flags.n == flags.v && !flags.z
    case Le => !(flags.n == flags.v && !flags.z)
    case Al => true
    case Invalid => true
  }

  /** Conditions come in pairs, of which exactly one holds; `al` always does. */
  lemma OppositeConditions(flags: Flags)
    ensures Holds(flags, Eq) != Holds(flags, Ne) && Holds(flags, Hs) != Holds(flags, Lo)
    ensures Holds(flags, Mi) != Holds(flags, Pl) && Holds(flags, Vs) != Holds(flags, Vc)
    ensures Holds(flags, Hi) != Holds(flags, Ls) && Holds(flags, Ge) != Holds(flags, Lt)
    ensures Holds(flags, Gt) != Holds(flags, Le) && Holds(flags, Al)
  {
  }

  // ---- Operand forms ----

  function Extend(option: ExtendType, x: U64): int {
    match option
    case Uxtb => x % 256
    case Uxth => x % 0x1_0000
    case Uxtw => x % 0x1_0000_0000
    case Uxtx => x
    case Sxtb => SInt(x % 256, 256)
    case Sxth => SInt(x % 0x1_0000, 0x1_0000)
    case Sxtw => SInt(x % 0x1_0000_0000, 0x1_0000_0000)
    case Sxtx => SInt(x, 0x1_0000_0000_0000_0000)
  }

  /** How many values the extended field has. */
  function FieldValues(option: ExtendType): (m: nat)
    ensures m > 0 && m % 2 == 0
  {
    match option
    case Uxtb => 0x100
    case Uxth => 0x1_0000
    case Uxtw => 0x1_0000_0000
    case Uxtx => 0x1_0000_0000_0000_0000
    case Sxtb => 0x100
    case Sxth => 0x1_0000
    case Sxtw => 0x1_0000_0000
    case Sxtx => 0x1_0000_0000_0000_0000
  }

  /** Extending keeps the low bits of the register and no others, as an unsigned or as a signed number. */
  lemma ExtendExact(option: ExtendType, x: U64)
    ensures var e, m := Extend(option, x), FieldValues(option) as int;
            && e % m == x % m
            && if option in {Uxtb, Uxth, Uxtw, Uxtx} then 0 <= e < m else -m <= 2 * e < m
  {
    LowPart(x, FieldValues(option));
  }

  lemma LowPart(x: nat, m: nat)
    requires m > 0 && m % 2 == 0
    ensures (x % m) % m == x % m && SInt(x % m, m) % m == x % m
    ensures -(m as int) <= 2 * SInt(x % m, m) < m
    ensures x < m ==> x % m == x
  {
    Modular.Wrap(x % m, m);
    Modular.WrapShift(x % m, -1, m);
    if x < m {
      Modular.Wrap(x, m);
    }
  }

  /** Shifted left. */
  function ScaleBy(x: int, amount: nat): int {
    if amount == 0 then x else 2 * ScaleBy(x, amount - 1)
  }

  lemma {:induction false} ScaleByPower(x: int, amount: nat)
    ensures ScaleBy(x, amount) == x * Pow2(amount)
  {
    if amount > 0 {
      ScaleByPower(x, amount - 1);
      assert x * Pow2(amount) == 2 * (x * Pow2(amount - 1));
    }
  }

  function BitAnd(x: nat, y: nat): nat {
    if x == 0 || y == 0 then 0 else (x % 2) * (y % 2) + 2 * BitAnd(x / 2, y / 2)
  }

  function BitOr(x: nat, y: nat): nat {
    if x == 0 then y else if y == 0 then x else (if x % 2 + y % 2 > 0 then 1 else 0) + 2 * BitOr(x / 2, y / 2)
  }

  function BitEor(x: nat, y: nat): nat {
    if x == 0 then y else if y == 0 then x else (x + y) % 2 + 2 * BitEor(x / 2, y / 2)
  }

  function Logical(op: LogicalOp, x: nat, y: nat): nat {
    match op case And => BitAnd(x, y) case Ands => BitAnd(x, y) case Orr => BitOr(x, y) case Eor => BitEor(x, y)
  }

  /** The weight of the lowest bit of halfword `hw`. */
  function HalfwordUnit(hw: nat): (u: nat)
    ensures u > 0
  {
    if hw == 0 then 1 else if hw == 1 then 0x1_0000 else if hw == 2 then 0x1_0000_0000 else 0x1_0000_0000_0000
  }

  function Halfword(x: nat, hw: nat): (h: nat)
    ensures h < 0x1_0000
  {
    x / HalfwordUnit(hw) % 0x1_0000
  }

  function MovedWide(op: MoveWideOp, previous: nat, imm16: nat, hw: nat, modulus: nat): int {
    match op
    case MovZ => imm16 * HalfwordUnit(hw)
    case MovN => modulus - 1 - imm16 * HalfwordUnit(hw)
    case MovK => previous + (imm16 - Halfword(previous, hw)) * HalfwordUnit(hw)
  }

  function Shifted(op: ShiftOp, x: nat, amount: nat, modulus: nat): int
    requires modulus > 0
  {
    match op
    case Lslv => x * Pow2(amount) % modulus
    case Lsrv => x / Pow2(amount)
    case Asrv => SInt(x, modulus) / Pow2(amount) % modulus
  }

  /** A field of the source moved down to bit 0, or low bits of the source moved up; `sbfm`
      extends the field's top bit. */
  function MovedField(op: BitfieldOp, x: nat, immr: nat, imms: nat, bits: nat): int
    requires immr < bits && imms < bits
  {
    var low := x % Pow2(imms + 1);
    var field := if op == Sbfm then SInt(low, Pow2(imms + 1)) else low;
    if imms >= immr then field / Pow2(immr) else field * Pow2(bits - immr)
  }

  function Product(op: MultiplyOp, x: nat, y: nat): int {
    match op
    case Madd => x * y
    case Msub => -(x * y)
    case Smaddl => SInt(x % 0x1_0000_0000, 0x1_0000_0000) * SInt(y % 0x1_0000_0000, 0x1_0000_0000)
    case Smsubl => -(SInt(x % 0x1_0000_0000, 0x1_0000_0000) * SInt(y % 0x1_0000_0000, 0x1_0000_0000))
  }

  // ---- Memory ----

  function Bytes(size: MemOpSize): (n: nat)
    ensures n in {1, 2, 4, 8}
  {
    match size case Size8 => 1 case Size16 => 2 case Size32 => 4 case Size64 => 8
  }

  function Log2(size: MemOpSize): nat {
    match size case Size8 => 0 case Size16 => 1 case Size32 => 2 case Size64 => 3
  }

  function Address(base: U64, offset: int): U64 {
    (base + offset) % 0x1_0000_0000_0000_0000
  }

  /** `n` bytes from `at` on, little-endian. */
  function ReadBytes(s: State, at: U64, n: nat): nat
    decreases n
  {
    if n == 0 then 0 else s.Byte(at) + 256 * ReadBytes(s, Address(at, 1), n - 1)
  }

  function WriteBytes(memory: map<U64, U8>, at: U64, n: nat, value: nat): map<U64, U8>
    decreases n
  {
    if n == 0 then memory else WriteBytes(memory[at := value % 256], Address(at, 1), n - 1, value / 256)
  }

  function Access(s: State, size: MemOpSize, mem: MemOp, rt: RegisterID, at: U64): State {
    if mem == Load then s.SetX(rt, ReadBytes(s, at, Bytes(size)) % 0x1_0000_0000_0000_0000)
    else s.(memory := WriteBytes(s.memory, at, Bytes(size), s.X(rt)))
  }

  // ---- Execution of everything but branches ----

  function ExecArithmetic(s: State, i: Instr): State {
    match i
    case AddSubImmediate(sf, op, setFlags, rd, rn, imm12, shift12) =>
      var y := (if shift12 then 0x1000 * imm12 else imm12) % Modulus(sf);
      SetSum(s, setFlags, rd, AddSub(op, s.Get(sf, rn), y, Modulus(sf)), sf)
    case AddSubRegister(sf, op, setFlags, rd, rn, rm) =>
      SetSum(s, setFlags, rd, AddSub(op, s.Get(sf, rn), s.Get(sf, rm), Modulus(sf)), sf)
    case AddSubExtended(sf, op, setFlags, rd, rn, rm, option, amount) =>
      var y := ScaleBy(Extend(option, s.X(rm)), amount) % Modulus(sf);
      SetSum(s, setFlags, rd, AddSub(op, s.Get(sf, rn), y, Modulus(sf)), sf)
    case LogicalRegister(sf, op, rd, rn, rm) =>
      var result := Logical(op, s.Get(sf, rn), s.Get(sf, rm)) % Modulus(sf);
      var moved := s.SetX(rd, result);
      if op == Ands then moved.(flags := Flags(2 * result >= Modulus(sf), result == 0, false, false)) else moved
    case _ => s
  }

  function ExecMoves(s: State, i: Instr): State {
    match i
    case MoveWide(sf, op, rd, imm16, hw) =>
      s.SetX(rd, MovedWide(op, s.Get(sf, rd), imm16, hw, Modulus(sf)) % Modulus(sf))
    case ShiftRegister(sf, op, rd, rn, rm) =>
      var bits := if sf == D64 then 64 else 32;
      s.SetX(rd, Shifted(op, s.Get(sf, rn), s.X(rm) % bits, Modulus(sf)) % Modulus(sf))
    case Multiply(sf, op, rd, rn, rm, ra) =>
      s.SetX(rd, (s.Get(sf, ra) + Product(op, s.Get(sf, rn), s.Get(sf, rm))) % Modulus(sf))
    case Bitfield(sf, op, rd, rn, immr, imms) =>
      var bits := if sf == D64 then 64 else 32;
      if immr >= bits || imms >= bits then s
      else s.SetX(rd, MovedField(op, s.Get(sf, rn), immr, imms, bits) % Modulus(sf))
    case _ => s
  }

  function ExecMemory(s: State, i: Instr): State {
    match i
    case LoadStoreUnsigned(size, mem, rt, rn, imm12) =>
      Access(s, size, mem, rt, Address(s.X(rn), imm12 * Bytes(size)))
    case LoadStoreRegister(size, mem, rt, rn, rm, option, scaled) =>
      Access(s, size, mem, rt, Address(s.X(rn), ScaleBy(Extend(option, s.X(rm)), if scaled then Log2(size) else 0)))
    case LoadStoreUnscaled(size, mem, rt, rn, imm9) =>
      Access(s, size, mem, rt, Address(s.X(rn), imm9))
    case LoadStorePair(mode, mem, rt, rt2, rn, offset) =>
      var at := if mode == PostIndex then s.X(rn) else Address(s.X(rn), offset);
      var accessed := Access(Access(s, Size64, mem, rt, at), Size64, mem, rt2, Address(at, 8));
      if mode == PairOffset then accessed else accessed.SetX(rn, Address(s.X(rn), offset))
    case _ => s
  }

  /** Branches and `nop` leave the state alone. */
  function Exec(s: State, i: Instr): State {
    if Arithmetic(i) then ExecArithmetic(s, i)
    else if Moves(i) then ExecMoves(s, i)
    else if Memory(i) then ExecMemory(s, i)
    else s
  }

  function SetSum(s: State, setFlags: bool, rd: RegisterID, sum: Sum, sf: Datasize): State
    requires sum.result < Modulus(sf)
  {
    var moved := s.SetX(rd, sum.result);
    if setFlags then moved.(flags := sum.flags) else moved
  }

  lemma SmallImmediate(sf: Datasize, u12: nat, shift12: bool)
    requires u12 < 0x1000
    ensures (if shift12 then 0x1000 * u12 else u12) % Modulus(sf) == (if shift12 then 0x1000 * u12 else u12)
  {
  }

  /** An immediate of an add or subtract instruction is below both moduli. */
  lemma ExecAddSubImmediate(s: State, sf: Datasize, op: AddOp, setFlags: bool, rd: RegisterID, rn: RegisterID, u12: nat,
                            shift12: bool, y: nat)
    requires u12 < 0x1000 && y == (if shift12 then 0x1000 * u12 else u12)
    ensures y < Modulus(sf)
    ensures Exec(s, AddSubImmediate(sf, op, setFlags, rd, rn, u12, shift12)) ==
      SetSum(s, setFlags, rd, AddSub(op, s.Get(sf, rn), y, Modulus(sf)), sf)
  {
    SmallImmediate(sf, u12, shift12);
  }

  lemma ExecAddSubReg(s: State, sf: Datasize, op: AddOp, setFlags: bool, rd: RegisterID, rn: RegisterID, rm: RegisterID)
    ensures Exec(s, AddSubReg(sf, op, setFlags, rd, rn, rm)) ==
      SetSum(s, setFlags, rd, AddSub(op, s.Get(sf, rn), s.Get(sf, rm), Modulus(sf)), sf)
  {
  }

  // ---- Programs ----

  function Fold<S, T>(f: (S, T) -> S, s: S, items: seq<T>): S
    decreases items
  {
    if items == [] then s else Fold(f, f(s, items[0]), items[1..])
  }

  lemma {:induction false} FoldAppend<S, T>(f: (S, T) -> S, s: S, a: seq<T>, b: seq<T>)
    ensures Fold(f, s, a + b) == Fold(f, Fold(f, s, a), b)
    decreases a
  {
    if a == [] {
      assert a + b == b;
    } else {
      FoldAppend(f, f(s, a[0]), a[1..], b);
      assert (a + b)[1..] == a[1..] + b;
    }
  }

  lemma FoldFirst<S, T>(f: (S, T) -> S, s: S, first: T, rest: seq<T>)
    ensures Fold(f, s, [first] + rest) == Fold(f, f(s, first), rest)
    ensures Fold(f, s, [first]) == f(s, first)
  {
    assert ([first] + rest)[1..] == rest;
    assert [first][1..] == [];
  }

  lemma FoldTwo<S, T>(f: (S, T) -> S, s: S, a: T, b: T)
    ensures Fold(f, s, [a, b]) == f(f(s, a), b)
  {
    assert [a, b] == [a] + [b];
    FoldFirst(f, s, a, [b]);
    FoldFirst(f, f(s, a), b, []);
  }

  function ExecAll(s: State, program: seq<Instr>): State {
    Fold(Exec, s, program)
  }

  lemma ExecAllAppend(s: State, a: seq<Instr>, b: seq<Instr>)
    ensures ExecAll(s, a + b) == ExecAll(ExecAll(s, a), b)
  {
    FoldAppend(Exec, s, a, b);
  }

  lemma ExecAllOne(s: State, i: Instr)
    ensures ExecAll(s, [i]) == Exec(s, i)
  {
    FoldFirst(Exec, s, i, []);
  }

  lemma ExecFirst(s: State, i: Instr, rest: seq<Instr>)
    ensures ExecAll(s, [i] + rest) == ExecAll(Exec(s, i), rest)
  {
    FoldFirst(Exec, s, i, rest);
  }

  lemma ExecTwo(s: State, a: Instr, b: Instr)
    ensures ExecAll(s, [a, b]) == Exec(Exec(s, a), b)
  {
    FoldTwo(Exec, s, a, b);
  }

  // ---- Branches ----

  /** A running machine: its state and the offset of the next instruction in the code. */
  datatype Cpu = Cpu(state: State, pc: int)

  function StepInstr(cpu: Cpu, i: Instr): Cpu {
    match i
    case Branch(link, imm26) =>
      Cpu(if link then cpu.state.SetX(LR, (cpu.pc + 4) % 0x1_0000_0000_0000_0000) else cpu.state, cpu.pc + 4 * imm26)
    case BranchConditional(cond, imm19) =>
      Cpu(cpu.state, cpu.pc + if Holds(cpu.state.flags, cond) then 4 * imm19 else 4)
    case BranchRegister(kind, rn) =>
      Cpu(if kind == Call then cpu.state.SetX(LR, (cpu.pc + 4) % 0x1_0000_0000_0000_0000) else cpu.state,
          cpu.state.X(rn))
    case _ => Cpu(Exec(cpu.state, i), cpu.pc + 4)
  }

  /** A `ret` at the target of a call goes on behind the call. */
  lemma ReturnFollowsCall(cpu: Cpu, call: Instr)
    requires (call.Branch? && call.link) || (call.BranchRegister? && call.kind == Call)
    requires 0 <= cpu.pc + 4 < 0x1_0000_0000_0000_0000
    ensures StepInstr(StepInstr(cpu, call), BranchRegister(Ret, LR)).pc == cpu.pc + 4
  {
  }
}
