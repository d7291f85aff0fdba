/** Materializing an immediate in a register with `movz`, `movn` and `movk`. */
module MoveImmediate {
  import opened Instructions
  import opened Machine

  function HalfwordCount(sf: Datasize): (n: nat)
    ensures n == 2 || n == 4
  {
    if sf == D64 then 4 else 2
  }

  // ---- Halfwords, lowest first ----

  type Digit = d: int | 0 <= d < 0x1_0000

  function Halfwords(value: nat, n: nat): (ds: seq<Digit>)
    ensures |ds| == n
  {
    seq(n, i requires 0 <= i < n => Halfword(value, i))
  }

  function Value(ds: seq<Digit>): nat {
    if ds == [] then 0 else ds[0] + 0x1_0000 * Value(ds[1..])
  }

  function Repeat(d: Digit, n: nat): (ds: seq<Digit>)
    ensures |ds| == n && forall i :: 0 <= i < n ==> ds[i] == d
  {
    seq(n, i requires 0 <= i < n => d)
  }

  function Join(a: nat, b: nat, c: nat, d: nat): nat {
    a + 0x1_0000 * b + 0x1_0000_0000 * c + 0x1_0000_0000_0000 * d
  }

  lemma ValueOfTwo(ds: seq<Digit>)
    requires |ds| == 2
    ensures Value(ds) == Join(ds[0], ds[1], 0, 0)
  {
    assert ds[1..][1..] == [];
    assert Value(ds[1..]) == ds[1] + 0x1_0000 * Value([]);
  }

  lemma ValueOfFour(ds: seq<Digit>)
    requires |ds| == 4
    ensures Value(ds) == Join(ds[0], ds[1], ds[2], ds[3])
  {
    assert ds[1..][1..] == ds[2..];
    ValueOfTwo(ds[2..]);
  }

  lemma ValueBound(sf: Datasize, ds: seq<Digit>)
    requires |ds| == HalfwordCount(sf)
    ensures Value(ds) < Modulus(sf)
  {
    if sf == D64 {
      ValueOfFour(ds);
    } else {
      ValueOfTwo(ds);
    }
  }

  lemma PeelHalfword(x: nat, a: nat, rest: nat)
    requires a < 0x1_0000 && x == a + 0x1_0000 * rest
    ensures x % 0x1_0000 == a && x / 0x1_0000 == rest
  {
  }

  lemma DivideTwice(x: nat)
    ensures x / 0x1_0000_0000 == x / 0x1_0000 / 0x1_0000
    ensures x / 0x1_0000_0000_0000 == x / 0x1_0000 / 0x1_0000 / 0x1_0000
  {
  }

  lemma {:induction false} HalfwordOfValue(ds: seq<Digit>, i: nat)
    requires i < |ds| && i < 4
    ensures Halfword(Value(ds), i) == ds[i]
  {
    PeelHalfword(Value(ds), ds[0], Value(ds[1..]));
    if i > 0 {
      HalfwordOfValue(ds[1..], i - 1);
      DivideTwice(Value(ds));
      DivideTwice(Value(ds[1..]));
    }
  }

  lemma JoinOfHalfwords(x: nat)
    requires x < 0x1_0000_0000_0000_0000
    ensures x == Join(Halfword(x, 0), Halfword(x, 1), Halfword(x, 2), Halfword(x, 3))
  {
    var q := x / 0x1_0000;
    var r := q / 0x1_0000;
    assert x / 0x1_0000_0000 == r && x / 0x1_0000_0000_0000 == r / 0x1_0000;
  }

  /** A register's halfwords are its value. */
  lemma ValueOfHalfwords(sf: Datasize, value: nat)
    requires value < Modulus(sf)
    ensures Value(Halfwords(value, HalfwordCount(sf))) == value
  {
    JoinOfHalfwords(value);
    if sf == D64 {
      ValueOfFour(Halfwords(value, 4));
    } else {
      ValueOfTwo(Halfwords(value, 2));
    }
  }

  lemma ValueUpdate(ds: seq<Digit>, i: nat, h: Digit)
    requires (|ds| == 2 || |ds| == 4) && i < |ds|
    ensures Value(ds[i := h]) == Value(ds) + (h - ds[i]) * HalfwordUnit(i)
  {
    if |ds| == 4 {
      ValueOfFour(ds);
      ValueOfFour(ds[i := h]);
    } else {
      ValueOfTwo(ds);
      ValueOfTwo(ds[i := h]);
    }
  }

  lemma ValueOfRepeat(sf: Datasize, ds: seq<Digit>, d: Digit)
    requires ds == Repeat(d, HalfwordCount(sf))
    ensures d == 0 ==> Value(ds) == 0
    ensures d == 0xffff ==> Value(ds) == Modulus(sf) - 1
  {
    if sf == D64 {
      ValueOfFour(ds);
    } else {
      ValueOfTwo(ds);
    }
  }

  // ---- The emitted programs ----

  function CountOf(ds: seq<Digit>, d: Digit): (n: nat)
    ensures n <= |ds|
  {
    if ds == [] then 0 else (if ds[0] == d then 1 else 0) + CountOf(ds[1..], d)
  }

  /** One clearing move for the first halfword that is not `skip`, then `movk` for the others. */
  function FillProgram(sf: Datasize, dest: RegisterID, ds: seq<Digit>, skip: Digit, from: nat,
                       needClear: bool): seq<Instr>
    requires from <= |ds|
    decreases |ds| - from
  {
    if from == |ds| then []
    else if ds[from] == skip then FillProgram(sf, dest, ds, skip, from + 1, needClear)
    else
      [if !needClear then MoveWide(sf, MovK, dest, ds[from], from)
       else if skip == 0 then MoveWide(sf, MovZ, dest, ds[from], from)
       else MoveWide(sf, MovN, dest, 0xffff - ds[from], from)]
      + FillProgram(sf, dest, ds, skip, from + 1, false)
  }

  /** What `move_internal` emits for the masked raw bits `value`. */
  function MoveProgram(sf: Datasize, dest: RegisterID, value: nat): seq<Instr>
    requires value < Modulus(sf)
  {
    var ds := Halfwords(value, HalfwordCount(sf));
    if value == 0 then [MoveWide(sf, MovZ, dest, 0, 0)]
    else if value == Modulus(sf) - 1 then [MoveWide(sf, MovN, dest, 0, 0)]
    else FillProgram(sf, dest, ds, if CountOf(ds, 0) >= CountOf(ds, 0xffff) then 0 else 0xffff, 0, true)
  }

  /** What `emit_move_immediate64` emits. */
  function MoveImmediate64Program(dest: RegisterID, value: U64): seq<Instr> {
    var filled := FillProgram(D64, dest, Halfwords(value, 4), 0, 0, true);
    if filled == [] then [MoveWide(D64, MovZ, dest, 0, 0)] else filled
  }

  // ---- What one move does to the halfwords ----

  /** The halfwords of the register after a move-wide instruction. */
  function Moved(ds: seq<Digit>, op: MoveWideOp, imm16: Digit, hw: nat): (moved: seq<Digit>)
    requires hw < |ds|
    ensures |moved| == |ds|
  {
    match op
    case MovZ => Repeat(0, |ds|)[hw := imm16]
    case MovN => Repeat(0xffff, |ds|)[hw := 0xffff - imm16]
    case MovK => ds[hw := imm16]
  }

  lemma NegatedValue(sf: Datasize, n: nat, imm16: Digit, hw: nat)
    requires n == HalfwordCount(sf) && hw < n
    ensures Value(Repeat(0xffff, n)[hw := 0xffff - imm16]) == Modulus(sf) - 1 - imm16 * HalfwordUnit(hw)
  {
    ValueOfRepeat(sf, Repeat(0xffff, n), 0xffff);
    ValueUpdate(Repeat(0xffff, n), hw, 0xffff - imm16);
  }

  lemma ClearedValue(sf: Datasize, n: nat, imm16: Digit, hw: nat)
    requires n == HalfwordCount(sf) && hw < n
    ensures Value(Repeat(0, n)[hw := imm16]) == imm16 * HalfwordUnit(hw)
  {
    ValueOfRepeat(sf, Repeat(0, n), 0);
    ValueUpdate(Repeat(0, n), hw, imm16);
  }

  lemma MovedValue(sf: Datasize, ds: seq<Digit>, op: MoveWideOp, imm16: Digit, hw: nat)
    requires |ds| == HalfwordCount(sf) && hw < |ds|
    ensures MovedWide(op, Value(ds), imm16, hw, Modulus(sf)) == Value(Moved(ds, op, imm16, hw))
  {
    match op {
      case MovZ => ClearedValue(sf, |ds|, imm16, hw);
      case MovN => NegatedValue(sf, |ds|, imm16, hw);
      case MovK =>
        ValueUpdate(ds, hw, imm16);
        HalfwordOfValue(ds, hw);
    }
  }

  lemma ExecMove(s: State, sf: Datasize, dest: RegisterID, ds: seq<Digit>, op: MoveWideOp, imm16: Digit, hw: nat)
    requires |ds| == HalfwordCount(sf) && hw < |ds| && s.Get(sf, dest) == Value(ds)
    ensures Value(Moved(ds, op, imm16, hw)) < Modulus(sf)
    ensures Exec(s, MoveWide(sf, op, dest, imm16, hw)) == s.SetX(dest, Value(Moved(ds, op, imm16, hw)))
  {
    MovedValue(sf, ds, op, imm16, hw);
    ValueBound(sf, Moved(ds, op, imm16, hw));
  }

  // ---- The programs set exactly the value ----

  ghost predicate AllFrom(ds: seq<Digit>, d: Digit, from: nat) {
    forall i :: from <= i < |ds| ==> ds[i] == d
  }

  /** The register once the first `from` halfwords are in place. */
  function Partial(ds: seq<Digit>, skip: Digit, from: nat): (partial: seq<Digit>)
    requires from <= |ds|
    ensures |partial| == |ds|
  {
    ds[..from] + Repeat(skip, |ds| - from)
  }

  lemma PartialStep(ds: seq<Digit>, skip: Digit, from: nat)
    requires from < |ds|
    ensures Partial(ds, skip, from)[from := ds[from]] == Partial(ds, skip, from + 1)
    ensures ds[from] == skip ==> Partial(ds, skip, from) == Partial(ds, skip, from + 1)
  {
    assert ds[..from + 1] == ds[..from] + [ds[from]];
  }

  /** `movk` moves on to the next halfword. */
  lemma KeepStep(s: State, sf: Datasize, dest: RegisterID, ds: seq<Digit>, skip: Digit, from: nat)
    requires dest != ZR && |ds| == HalfwordCount(sf) && from < |ds|
    requires Value(Partial(ds, skip, from)) < Modulus(sf)
    ensures Value(Partial(ds, skip, from + 1)) < Modulus(sf)
    ensures Exec(s.SetX(dest, Value(Partial(ds, skip, from))), MoveWide(sf, MovK, dest, ds[from], from)) ==
      s.SetX(dest, Value(Partial(ds, skip, from + 1)))
  {
    var before, after := Partial(ds, skip, from), Partial(ds, skip, from + 1);
    PartialStep(ds, skip, from);
    SetTwice(s, dest, Value(before), 0);
    ExecMove(s.SetX(dest, Value(before)), sf, dest, before, MovK, ds[from], from);
    SetTwice(s, dest, Value(before), Value(after));
  }

  lemma {:induction false} FillKeeps(s: State, sf: Datasize, dest: RegisterID, ds: seq<Digit>, skip: Digit, from: nat)
    requires dest != ZR && |ds| == HalfwordCount(sf) && from <= |ds|
    requires Value(Partial(ds, skip, from)) < Modulus(sf)
    ensures Value(ds) < Modulus(sf)
    ensures ExecAll(s.SetX(dest, Value(Partial(ds, skip, from))), FillProgram(sf, dest, ds, skip, from, false)) ==
      s.SetX(dest, Value(ds))
    decreases |ds| - from
  {
    if from == |ds| {
      assert Partial(ds, skip, from) == ds;
    } else {
      ValueBound(sf, Partial(ds, skip, from + 1));
      FillKeeps(s, sf, dest, ds, skip, from + 1);
      PartialStep(ds, skip, from);
      if ds[from] != skip {
        KeepStep(s, sf, dest, ds, skip, from);
        ExecFirst(s.SetX(dest, Value(Partial(ds, skip, from))), MoveWide(sf, MovK, dest, ds[from], from),
                  FillProgram(sf, dest, ds, skip, from + 1, false));
      }
    }
  }

  /** The clearing move puts its halfword in place and `skip` everywhere else, whatever was there. */
  lemma ClearStep(s: State, sf: Datasize, dest: RegisterID, ds: seq<Digit>, skip: Digit, from: nat)
    requires |ds| == HalfwordCount(sf) && from < |ds| && (skip == 0 || skip == 0xffff)
    requires ds[..from] == Repeat(skip, from)
    ensures Value(Partial(ds, skip, from + 1)) < Modulus(sf)
    ensures var move := if skip == 0 then MoveWide(sf, MovZ, dest, ds[from], from)
                        else MoveWide(sf, MovN, dest, 0xffff - ds[from], from);
            Exec(s, move) == s.SetX(dest, Value(Partial(ds, skip, from + 1)))
  {
    var held := Halfwords(s.Get(sf, dest), |ds|);
    ValueOfHalfwords(sf, s.Get(sf, dest));
    PartialStep(ds, skip, from);
    assert Partial(ds, skip, from) == Repeat(skip, |ds|);
    if skip == 0 {
      ExecMove(s, sf, dest, held, MovZ, ds[from], from);
    } else {
      ExecMove(s, sf, dest, held, MovN, 0xffff - ds[from], from);
    }
  }

  lemma {:induction false} FillSets(s: State, sf: Datasize, dest: RegisterID, ds: seq<Digit>, skip: Digit, from: nat)
    requires dest != ZR && |ds| == HalfwordCount(sf) && from <= |ds| && (skip == 0 || skip == 0xffff)
    requires ds[..from] == Repeat(skip, from) && ds != Repeat(skip, |ds|)
    ensures Value(ds) < Modulus(sf)
    ensures ExecAll(s, FillProgram(sf, dest, ds, skip, from, true)) == s.SetX(dest, Value(ds))
    decreases |ds| - from
  {
    assert from < |ds| by {
      assert ds[..|ds|] == ds;
    }
    if ds[from] == skip {
      assert ds[..from + 1] == Repeat(skip, from + 1);
      FillSets(s, sf, dest, ds, skip, from + 1);
    } else {
      ClearStep(s, sf, dest, ds, skip, from);
      FillKeeps(s, sf, dest, ds, skip, from + 1);
      var move := if skip == 0 then MoveWide(sf, MovZ, dest, ds[from], from)
                  else MoveWide(sf, MovN, dest, 0xffff - ds[from], from);
      ExecFirst(s, move, FillProgram(sf, dest, ds, skip, from + 1, false));
    }
  }

  lemma ExecClear(s: State, sf: Datasize, dest: RegisterID)
    ensures ExecAll(s, [MoveWide(sf, MovZ, dest, 0, 0)]) == s.SetX(dest, 0)
    ensures ExecAll(s, [MoveWide(sf, MovN, dest, 0, 0)]) == s.SetX(dest, Modulus(sf) - 1)
  {
    ExecAllOne(s, MoveWide(sf, MovZ, dest, 0, 0));
    ExecAllOne(s, MoveWide(sf, MovN, dest, 0, 0));
  }

  /** The program leaves exactly `value` in the register, whatever it held, and touches nothing else. */
  lemma MoveSets(s: State, sf: Datasize, dest: RegisterID, value: nat)
    requires dest != ZR && value < Modulus(sf)
    ensures ExecAll(s, MoveProgram(sf, dest, value)) == s.SetX(dest, value)
  {
    if value == 0 || value == Modulus(sf) - 1 {
      ExecClear(s, sf, dest);
    } else {
      var ds := Halfwords(value, HalfwordCount(sf));
      ValueOfHalfwords(sf, value);
      ValueOfRepeat(sf, Repeat(0, |ds|), 0);
      ValueOfRepeat(sf, Repeat(0xffff, |ds|), 0xffff);
      FillSets(s, sf, dest, ds, if CountOf(ds, 0) >= CountOf(ds, 0xffff) then 0 else 0xffff, 0);
    }
  }

  lemma {:induction false} FillOfNothing(sf: Datasize, dest: RegisterID, ds: seq<Digit>, skip: Digit, from: nat)
    requires from <= |ds|
    ensures FillProgram(sf, dest, ds, skip, from, true) == [] <==> AllFrom(ds, skip, from)
    decreases |ds| - from
  {
    if from < |ds| && ds[from] == skip {
      FillOfNothing(sf, dest, ds, skip, from + 1);
    }
  }

  /** The encoder's own helper reaches the same 64-bit value. */
  lemma MoveImmediate64Sets(s: State, dest: RegisterID, value: U64)
    requires dest != ZR
    ensures ExecAll(s, MoveImmediate64Program(dest, value)) == s.SetX(dest, value)
  {
    var ds := Halfwords(value, 4);
    ValueOfHalfwords(D64, value);
    FillOfNothing(D64, dest, ds, 0, 0);
    if FillProgram(D64, dest, ds, 0, 0, true) == [] {
      assert ds == Repeat(0, 4);
      ValueOfRepeat(D64, ds, 0);
      ExecClear(s, D64, dest);
    } else {
      FillSets(s, D64, dest, ds, 0, 0);
    }
  }

  // ---- How many instructions ----

  function CountFrom(ds: seq<Digit>, d: Digit, from: nat): nat
    requires from <= |ds|
  {
    CountOf(ds[from..], d)
  }

  lemma {:induction false} FillLength(sf: Datasize, dest: RegisterID, ds: seq<Digit>, skip: Digit, from: nat,
                                      needClear: bool)
    requires from <= |ds|
    ensures |FillProgram(sf, dest, ds, skip, from, needClear)| == |ds| - from - CountFrom(ds, skip, from)
    decreases |ds| - from
  {
    if from < |ds| {
      assert ds[from..][1..] == ds[from + 1..];
      FillLength(sf, dest, ds, skip, from + 1, needClear && ds[from] == skip);
    }
  }

  lemma {:induction false} CountOfAppend(a: seq<Digit>, b: seq<Digit>, d: Digit)
    ensures CountOf(a + b, d) == CountOf(a, d) + CountOf(b, d)
  {
    if a == [] {
      assert a + b == b;
    } else {
      CountOfAppend(a[1..], b, d);
      assert (a + b)[1..] == a[1..] + b;
    }
  }

  function Max(a: int, b: int): int {
    if a >= b then a else b
  }

  lemma {:induction false} CountOfFull(ds: seq<Digit>, d: Digit)
    ensures CountOf(ds, d) == |ds| <==> ds == Repeat(d, |ds|)
  {
    if ds != [] {
      CountOfFull(ds[1..], d);
      assert ds == [ds[0]] + ds[1..];
      assert Repeat(d, |ds|)[1..] == Repeat(d, |ds| - 1);
    }
  }

  lemma HalfwordsOfRepeat(sf: Datasize, value: nat, d: Digit)
    requires value == Value(Repeat(d, HalfwordCount(sf)))
    ensures Halfwords(value, HalfwordCount(sf)) == Repeat(d, HalfwordCount(sf))
  {
    var n := HalfwordCount(sf);
    forall i | 0 <= i < n ensures Halfword(value, i) == d {
      HalfwordOfValue(Repeat(d, n), i);
    }
  }

  /** Only 0 is all zero halfwords, and only the mask is all ones. */
  lemma CountOfExtremes(sf: Datasize, value: nat)
    requires value < Modulus(sf)
    ensures var ds := Halfwords(value, HalfwordCount(sf));
            (value == 0 <==> CountOf(ds, 0) == |ds|) && (value == Modulus(sf) - 1 <==> CountOf(ds, 0xffff) == |ds|)
  {
    var ds := Halfwords(value, HalfwordCount(sf));
    ValueOfHalfwords(sf, value);
    CountOfFull(ds, 0);
    CountOfFull(ds, 0xffff);
    ValueOfRepeat(sf, Repeat(0, |ds|), 0);
    ValueOfRepeat(sf, Repeat(0xffff, |ds|), 0xffff);
    if value == 0 {
      HalfwordsOfRepeat(sf, value, 0);
    } else if value == Modulus(sf) - 1 {
      HalfwordsOfRepeat(sf, value, 0xffff);
    }
  }

  /** One per halfword, less the more frequent of 0x0000 and 0xffff, but at least one. */
  function MoveCost(ds: seq<Digit>): nat {
    Max(1, |ds| - Max(CountOf(ds, 0), CountOf(ds, 0xffff)))
  }

  /** The length. */
  lemma MoveLength(sf: Datasize, dest: RegisterID, value: nat)
    requires value < Modulus(sf)
    ensures |MoveProgram(sf, dest, value)| == MoveCost(Halfwords(value, HalfwordCount(sf)))
  {
    var ds := Halfwords(value, HalfwordCount(sf));
    CountOfExtremes(sf, value);
    assert ds[0..] == ds;
    FillLength(sf, dest, ds, 0, 0, true);
    FillLength(sf, dest, ds, 0xffff, 0, true);
  }

  // ---- No sequence of moves is shorter ----

  /** A legal move-wide instruction of either size to the destination. */
  predicate IsMove(dest: RegisterID, i: Instr) {
    i.MoveWide? && i.rd == dest && i.imm16 < 0x1_0000 && i.hw < HalfwordCount(i.sf)
  }

  ghost predicate AllMoves(dest: RegisterID, program: seq<Instr>) {
    forall i :: i in program ==> IsMove(dest, i)
  }

  ghost predicate AllOfSize(sf: Datasize, dest: RegisterID, program: seq<Instr>) {
    forall i :: i in program ==> IsMove(dest, i) && i.sf == sf
  }

  /** The program sets the register to `value` from every prior state. */
  ghost predicate AlwaysSets(dest: RegisterID, value: nat, program: seq<Instr>) {
    forall s: State :: ExecAll(s, program).X(dest) == value
  }

  /** No program of moves of either size sets the value in fewer than `n`. */
  ghost predicate NoneShorter(dest: RegisterID, value: nat, n: nat) {
    forall program :: AllMoves(dest, program) && AlwaysSets(dest, value, program) ==> n <= |program|
  }

  function Differences(a: seq<Digit>, b: seq<Digit>): nat
    requires |a| == |b|
  {
    if a == [] then 0 else (if a[0] != b[0] then 1 else 0) + Differences(a[1..], b[1..])
  }

  lemma {:induction false} OneMoreDifference(a: seq<Digit>, b: seq<Digit>, i: nat, d: Digit)
    requires |a| == |b| && i < |a|
    ensures Differences(a[i := d], b) <= Differences(a, b) + 1
  {
    if i > 0 {
      OneMoreDifference(a[1..], b[1..], i - 1, d);
      assert a[i := d][1..] == a[1..][i - 1 := d];
    } else {
      assert a[i := d][1..] == a[1..];
    }
  }

  lemma {:induction false} NoDifferences(a: seq<Digit>)
    ensures Differences(a, a) == 0
  {
    if a != [] {
      NoDifferences(a[1..]);
    }
  }

  lemma {:induction false} DifferencesFromRepeat(a: seq<Digit>, d: Digit)
    ensures Differences(a, Repeat(d, |a|)) == |a| - CountOf(a, d)
  {
    if a != [] {
      assert Repeat(d, |a|)[1..] == Repeat(d, |a| - 1);
      DifferencesFromRepeat(a[1..], d);
    }
  }

  lemma {:induction false} OneLessMatch(a: seq<Digit>, i: nat, d: Digit, x: Digit)
    requires i < |a|
    ensures CountOf(a, x) - 1 <= CountOf(a[i := d], x)
  {
    if i > 0 {
      OneLessMatch(a[1..], i - 1, d, x);
      assert a[i := d][1..] == a[1..][i - 1 := d];
    } else {
      assert a[i := d][1..] == a[1..];
    }
  }

  /** Halves of a register differ independently. */
  lemma {:induction false} DifferencesOfHalves(a: seq<Digit>, b: seq<Digit>, c: seq<Digit>, d: seq<Digit>)
    requires |a| == |c| && |b| == |d|
    ensures Differences(a + b, c + d) == Differences(a, c) + Differences(b, d)
  {
    if a == [] {
      assert a + b == b && c + d == d;
    } else {
      assert (a + b)[1..] == a[1..] + b && (c + d)[1..] == c[1..] + d;
      DifferencesOfHalves(a[1..], b, c[1..], d);
    }
  }

  type Register = ds: seq<Digit> | |ds| == 4 witness [0, 0, 0, 0]

  /** The halfwords of the whole register after a move of either size: a 32-bit one clears the upper half. */
  function MoveStep(ds: Register, dest: RegisterID, i: Instr): Register
    requires IsMove(dest, i)
  {
    if i.sf == D64 then Moved(ds, i.move, i.imm16, i.hw)
    else Moved(ds[..2], i.move, i.imm16, i.hw) + Repeat(0, 2)
  }

  /** The halfwords after a program of moves. */
  function MovedAll(ds: Register, dest: RegisterID, program: seq<Instr>): Register
    requires AllMoves(dest, program)
  {
    if program == [] then ds
    else
      var last := program[|program| - 1];
      assert IsMove(dest, last);
      MoveStep(MovedAll(ds, dest, program[..|program| - 1]), dest, last)
  }

  /** How many moves it takes to get there through a 32-bit `movn`: that one, which may put a lower
      halfword in place, and one for each further halfword that is not 0xffff below or 0 above. */
  function ThroughNarrow(ds: Register): nat {
    Max(1, 2 - CountOf(ds[..2], 0xffff)) + 2 - CountOf(ds[2..], 0)
  }

  /** At most `n` halfwords away from all zeros, from all ones or from what the register held; or, once a
      32-bit move was made, from those with the upper half cleared. */
  predicate Near(ds: Register, prior: Register, n: nat, narrow: bool) {
    || Differences(ds, Repeat(0, 4)) <= n
    || Differences(ds, Repeat(0xffff, 4)) <= n
    || Differences(ds, prior) <= n
    || (narrow && (ThroughNarrow(ds) <= n || Differences(ds, prior[..2] + Repeat(0, 2)) <= n))
  }

  lemma ResetNear(ds: Register, prior: Register, dest: RegisterID, i: Instr, n: nat, narrow: bool)
    requires IsMove(dest, i) && i.move != MovK && n > 0 && (i.sf == D32 ==> narrow)
    ensures Near(MoveStep(ds, dest, i), prior, n, narrow)
  {
    var size := HalfwordCount(i.sf);
    var d: Digit := if i.move == MovZ then 0 else 0xffff;
    NoDifferences(Repeat(d, size));
    OneMoreDifference(Repeat(d, size), Repeat(d, size), i.hw, if d == 0 then i.imm16 else 0xffff - i.imm16);
    if i.sf == D32 {
      var low := Moved(ds[..2], i.move, i.imm16, i.hw);
      NoDifferences(Repeat(0, 2));
      DifferencesOfHalves(low, Repeat(0, 2), Repeat(0, 2), Repeat(0, 2));
      assert Repeat(0, 2) + Repeat(0, 2) == Repeat(0, 4);
      assert (low + Repeat(0, 2))[..2] == low && (low + Repeat(0, 2))[2..] == Repeat(0, 2);
      DifferencesFromRepeat(low, d);
      CountOfFull(Repeat(0, 2), 0);
    }
  }

  lemma KeepNear64(ds: Register, prior: Register, d: Digit, hw: nat, n: nat, narrow: bool)
    requires hw < 4 && Near(ds, prior, n, narrow)
    ensures Near(ds[hw := d], prior, n + 1, narrow)
  {
    OneMoreDifference(ds, Repeat(0, 4), hw, d);
    OneMoreDifference(ds, Repeat(0xffff, 4), hw, d);
    OneMoreDifference(ds, prior, hw, d);
    OneMoreDifference(ds, prior[..2] + Repeat(0, 2), hw, d);
    if hw < 2 {
      OneLessMatch(ds[..2], hw, d, 0xffff);
      assert ds[hw := d][..2] == ds[..2][hw := d] && ds[hw := d][2..] == ds[2..];
    } else {
      OneLessMatch(ds[2..], hw - 2, d, 0);
      assert ds[hw := d][..2] == ds[..2] && ds[hw := d][2..] == ds[2..][hw - 2 := d];
    }
  }

  /** The register after a 32-bit `movk`. */
  function KeptNarrow(ds: Register, d: Digit, hw: nat): Register
    requires hw < 2
  {
    ds[..2][hw := d] + Repeat(0, 2)
  }

  /** Clearing the upper half comes no further from a register whose upper half is zero. */
  lemma KeepHalf(ds: Register, low: seq<Digit>, top: seq<Digit>, d: Digit, hw: nat)
    requires |low| == 2 && |top| == 2 && hw < 2
    ensures Differences(KeptNarrow(ds, d, hw), low + Repeat(0, 2)) <= Differences(ds, low + top) + 1
  {
    assert ds == ds[..2] + ds[2..];
    DifferencesOfHalves(ds[..2], ds[2..], low, top);
    OneMoreDifference(ds[..2], low, hw, d);
    DifferencesOfHalves(ds[..2][hw := d], Repeat(0, 2), low, Repeat(0, 2));
    NoDifferences(Repeat(0, 2));
  }

  lemma KeepThrough(ds: Register, d: Digit, hw: nat)
    requires hw < 2
    ensures ThroughNarrow(KeptNarrow(ds, d, hw)) <= ThroughNarrow(ds) + 1
    ensures ThroughNarrow(KeptNarrow(ds, d, hw)) <= Differences(ds, Repeat(0xffff, 4)) + 1
  {
    var kept, ones := KeptNarrow(ds, d, hw), Repeat(0xffff, 2);
    assert kept[..2] == ds[..2][hw := d] && kept[2..] == Repeat(0, 2);
    CountOfFull(Repeat(0, 2), 0);
    OneLessMatch(ds[..2], hw, d, 0xffff);
    assert ds == ds[..2] + ds[2..] && ones + ones == Repeat(0xffff, 4);
    DifferencesOfHalves(ds[..2], ds[2..], ones, ones);
    DifferencesFromRepeat(ds[..2], 0xffff);
  }

  lemma KeepNear32(ds: Register, prior: Register, d: Digit, hw: nat, n: nat)
    requires hw < 2 && Near(ds, prior, n, true)
    ensures Near(KeptNarrow(ds, d, hw), prior, n + 1, true)
  {
    var zeros := Repeat(0, 2);
    assert zeros + zeros == Repeat(0, 4) && prior[..2] + prior[2..] == prior;
    KeepHalf(ds, zeros, zeros, d, hw);
    KeepHalf(ds, prior[..2], prior[2..], d, hw);
    KeepHalf(ds, prior[..2], zeros, d, hw);
    KeepThrough(ds, d, hw);
  }

  lemma {:induction false} MovedNearby(prior: Register, dest: RegisterID, program: seq<Instr>, narrow: bool)
    requires AllMoves(dest, program) && (narrow || AllOfSize(D64, dest, program))
    ensures Near(MovedAll(prior, dest, program), prior, |program|, narrow)
    decreases |program|
  {
    if program == [] {
      NoDifferences(prior);
    } else {
      var last := program[|program| - 1];
      assert IsMove(dest, last) && last in program;
      var before := MovedAll(prior, dest, program[..|program| - 1]);
      MovedNearby(prior, dest, program[..|program| - 1], narrow);
      if last.move != MovK {
        ResetNear(before, prior, dest, last, |program|, narrow);
      } else if last.sf == D64 {
        KeepNear64(before, prior, last.imm16, last.hw, |program| - 1, narrow);
      } else {
        KeepNear32(before, prior, last.imm16, last.hw, |program| - 1);
      }
    }
  }

  lemma MoveReaches(s: State, dest: RegisterID, ds: Register, i: Instr)
    requires dest != ZR && IsMove(dest, i) && s.X(dest) == Value(ds)
    ensures Exec(s, i).X(dest) == Value(MoveStep(ds, dest, i))
  {
    var held := if i.sf == D64 then ds else ds[..2];
    var moved := Moved(held, i.move, i.imm16, i.hw);
    ValueBound(D64, ds);
    LowHalf(ds, ds[2..]);
    assert ds == ds[..2] + ds[2..];
    ExecMove(s, i.sf, dest, held, i.move, i.imm16, i.hw);
    SetTwice(s, dest, Value(moved), 0);
    if i.sf == D32 {
      LowHalf(moved + Repeat(0, 2), Repeat(0, 2));
      ValueOfRepeat(D32, Repeat(0, 2), 0);
    }
  }

  /** The lower half of a register is its value modulo 2^32. */
  lemma LowHalf(ds: Register, top: seq<Digit>)
    requires top == ds[2..]
    ensures Value(ds) == Value(ds[..2]) + 0x1_0000_0000 * Value(top)
    ensures Value(ds) % 0x1_0000_0000 == Value(ds[..2])
  {
    ValueOfFour(ds);
    ValueOfTwo(ds[..2]);
    ValueOfTwo(top);
    ValueBound(D32, ds[..2]);
    Modular.WrapOnce(Value(ds), Value(top), 0x1_0000_0000);
  }

  lemma {:induction false} ExecMovedAll(s: State, ds: Register, dest: RegisterID, program: seq<Instr>)
    requires dest != ZR && AllMoves(dest, program) && s.X(dest) == Value(ds)
    ensures ExecAll(s, program).X(dest) == Value(MovedAll(ds, dest, program))
    decreases |program|
  {
    if program != [] {
      var init, last := program[..|program| - 1], program[|program| - 1];
      assert last in program && program == init + [last];
      ExecMovedAll(s, ds, dest, init);
      ExecAllAppend(s, init, [last]);
      ExecAllOne(ExecAll(s, init), last);
      MoveReaches(ExecAll(s, init), dest, MovedAll(ds, dest, init), last);
    }
  }

  /** Different from `ds` in every halfword. */
  function Opposite(ds: seq<Digit>): (other: seq<Digit>)
    ensures |other| == |ds|
  {
    seq(|ds|, i requires 0 <= i < |ds| => 0xffff - ds[i])
  }

  lemma {:induction false} OppositeDiffers(ds: seq<Digit>)
    ensures Differences(ds, Opposite(ds)) == |ds|
  {
    if ds != [] {
      assert Opposite(ds)[1..] == Opposite(ds[1..]);
      OppositeDiffers(ds[1..]);
    }
  }

  lemma {:induction false} HalfwordsDetermined(a: seq<Digit>, b: seq<Digit>)
    requires |a| == |b| && Value(a) == Value(b)
    ensures a == b
  {
    if a != [] {
      assert Value(a[1..]) == Value(b[1..]) && a[0] == b[0];
      HalfwordsDetermined(a[1..], b[1..]);
      assert a == [a[0]] + a[1..] && b == [b[0]] + b[1..];
    }
  }

  /** A program that always sets the value sets it from the opposite one, which is far away. */
  lemma SetsFromOpposite(dest: RegisterID, value: nat, program: seq<Instr>, narrow: bool)
    requires dest != ZR && value < Modulus(D64)
    requires AllMoves(dest, program) && AlwaysSets(dest, value, program)
    requires narrow || AllOfSize(D64, dest, program)
    ensures var ds := Halfwords(value, 4);
            Near(ds, Opposite(ds), |program|, narrow)
    ensures |program| >= 1
  {
    var ds: Register := Halfwords(value, 4);
    var prior: Register := Opposite(ds);
    ValueOfHalfwords(D64, value);
    ValueBound(D64, prior);
    var empty := State(map[], Flags(false, false, false, false), map[]);
    var s := empty.SetX(dest, Value(prior));
    SetTwice(empty, dest, Value(prior), 0);
    assert s.X(dest) == Value(prior);
    ExecMovedAll(s, prior, dest, program);
    assert ExecAll(s, program).X(dest) == value;
    HalfwordsDetermined(MovedAll(prior, dest, program), ds);
    MovedNearby(prior, dest, program, narrow);
    if program == [] {
      OppositeDiffers(ds);
      NoDifferences(ds);
    }
  }

  /** How far a value is from its opposite, with the upper half cleared or not. */
  lemma FarFromOpposite(ds: Register)
    ensures Differences(ds, Opposite(ds)) == 4
    ensures Differences(ds, Opposite(ds)[..2] + Repeat(0, 2)) == 4 - CountOf(ds[2..], 0)
  {
    OppositeDiffers(ds);
    OppositeDiffers(ds[..2]);
    assert Opposite(ds)[..2] == Opposite(ds[..2]) && ds == ds[..2] + ds[2..];
    DifferencesOfHalves(ds[..2], ds[2..], Opposite(ds[..2]), Repeat(0, 2));
    DifferencesFromRepeat(ds[2..], 0);
  }

  lemma CountsOfHalves(ds: Register, d: Digit)
    ensures CountOf(ds, d) == CountOf(ds[..2], d) + CountOf(ds[2..], d)
  {
    assert ds == ds[..2] + ds[2..];
    CountOfAppend(ds[..2], ds[2..], d);
  }

  /** Whatever is near its opposite takes as many moves as are emitted, or the way through a 32-bit `movn`. */
  lemma NearOpposite(ds: Register, n: nat, narrow: bool)
    requires n >= 1 && Near(ds, Opposite(ds), n, narrow)
    ensures MoveCost(ds) <= n || (narrow && ThroughNarrow(ds) <= n)
  {
    DifferencesFromRepeat(ds, 0);
    DifferencesFromRepeat(ds, 0xffff);
    FarFromOpposite(ds);
    CountsOfHalves(ds, 0);
  }

  /** With an upper half of zeros the 32-bit sequence is as short as either way. */
  lemma NarrowCost(ds: Register)
    requires ds[2..] == Repeat(0, 2)
    ensures MoveCost(ds[..2]) <= MoveCost(ds) && MoveCost(ds[..2]) <= ThroughNarrow(ds)
  {
    CountsOfHalves(ds, 0);
    CountsOfHalves(ds, 0xffff);
    CountOfFull(ds[2..], 0);
    assert CountOf(ds[2..], 0xffff) == 0 by {
      assert ds[2..][0] == 0 && ds[2..][1..][0] == 0 && ds[2..][1..][1..] == [];
    }
  }

  /** A 32-bit value as a whole register. */
  lemma NarrowHalfwords(value: nat)
    requires value < Modulus(D32)
    ensures Halfwords(value, 4)[..2] == Halfwords(value, 2) && Halfwords(value, 4)[2..] == Repeat(0, 2)
  {
    assert value / 0x1_0000_0000 == 0 && value / 0x1_0000_0000_0000 == 0;
  }

  /** No program of moves is shorter, unless a 64-bit value is better reached through a 32-bit `movn`. */
  lemma MoveLowerBound(sf: Datasize, dest: RegisterID, value: nat, program: seq<Instr>, narrow: bool)
    requires dest != ZR && value < Modulus(sf)
    requires AllMoves(dest, program) && AlwaysSets(dest, value, program)
    requires narrow || AllOfSize(D64, dest, program)
    ensures || |MoveProgram(sf, dest, value)| <= |program|
            || (narrow && sf == D64 && ThroughNarrow(Halfwords(value, 4)) <= |program|)
  {
    var ds: Register := Halfwords(value, 4);
    SetsFromOpposite(dest, value, program, narrow);
    NearOpposite(ds, |program|, narrow);
    MoveLength(sf, dest, value);
    if sf == D32 {
      NarrowHalfwords(value);
      NarrowCost(ds);
    }
  }

  /** No program of moves of its own size is shorter. */
  lemma MoveShortest(sf: Datasize, dest: RegisterID, value: nat, program: seq<Instr>)
    requires dest != ZR && value < Modulus(sf)
    requires AllOfSize(sf, dest, program) && AlwaysSets(dest, value, program)
    ensures |MoveProgram(sf, dest, value)| <= |program|
  {
    MoveLowerBound(sf, dest, value, program, sf == D32);
  }

  // ---- When no sequence of moves of either size is shorter ----

  /** A 32-bit `movn` and its `movk`: the lower half in place, the upper half zero. */
  function NarrowLow(dest: RegisterID, low: seq<Digit>): seq<Instr> {
    var filled := FillProgram(D32, dest, low, 0xffff, 0, true);
    if filled == [] then [MoveWide(D32, MovN, dest, 0, 0)] else filled
  }

  /** Then 64-bit `movk`s for the upper half. */
  function NarrowProgram(dest: RegisterID, ds: Register): seq<Instr> {
    NarrowLow(dest, ds[..2]) + FillProgram(D64, dest, ds, 0, 2, false)
  }

  lemma NarrowLowSets(s: State, dest: RegisterID, low: seq<Digit>)
    requires dest != ZR && |low| == 2
    ensures Value(low) < Modulus(D32)
    ensures ExecAll(s, NarrowLow(dest, low)) == s.SetX(dest, Value(low))
  {
    ValueBound(D32, low);
    FillOfNothing(D32, dest, low, 0xffff, 0);
    if FillProgram(D32, dest, low, 0xffff, 0, true) == [] {
      assert low == Repeat(0xffff, 2);
      ValueOfRepeat(D32, low, 0xffff);
      ExecClear(s, D32, dest);
    } else {
      FillSets(s, D32, dest, low, 0xffff, 0);
    }
  }

  lemma NarrowSets(s: State, dest: RegisterID, ds: Register)
    requires dest != ZR
    ensures Value(ds) < Modulus(D64)
    ensures ExecAll(s, NarrowProgram(dest, ds)) == s.SetX(dest, Value(ds))
  {
    var low, partial: Register := ds[..2], Partial(ds, 0, 2);
    ValueBound(D64, ds);
    NarrowLowSets(s, dest, low);
    ExecAllAppend(s, NarrowLow(dest, low), FillProgram(D64, dest, ds, 0, 2, false));
    LowHalf(partial, Repeat(0, 2));
    ValueOfRepeat(D32, Repeat(0, 2), 0);
    assert partial[..2] == low;
    FillKeeps(s, D64, dest, ds, 0, 2);
  }

  lemma {:induction false} FillMoves(sf: Datasize, dest: RegisterID, ds: seq<Digit>, skip: Digit, from: nat,
                                     needClear: bool)
    requires |ds| == HalfwordCount(sf) && from <= |ds|
    ensures AllMoves(dest, FillProgram(sf, dest, ds, skip, from, needClear))
    decreases |ds| - from
  {
    if from < |ds| {
      FillMoves(sf, dest, ds, skip, from + 1, needClear && ds[from] == skip);
    }
  }

  lemma NarrowLength(dest: RegisterID, ds: Register)
    ensures |NarrowProgram(dest, ds)| == ThroughNarrow(ds)
    ensures AllMoves(dest, NarrowProgram(dest, ds))
  {
    assert ds[..2][0..] == ds[..2];
    FillLength(D32, dest, ds[..2], 0xffff, 0, true);
    FillLength(D64, dest, ds, 0, 2, false);
    FillMoves(D32, dest, ds[..2], 0xffff, 0, true);
    FillMoves(D64, dest, ds, 0, 2, false);
  }

  lemma NarrowAlwaysSets(dest: RegisterID, value: nat)
    requires dest != ZR && value < Modulus(D64)
    ensures AlwaysSets(dest, value, NarrowProgram(dest, Halfwords(value, 4)))
  {
    var ds: Register := Halfwords(value, 4);
    ValueOfHalfwords(D64, value);
    forall s: State ensures ExecAll(s, NarrowProgram(dest, ds)).X(dest) == value {
      NarrowSets(s, dest, ds);
      SetTwice(s, dest, value, 0);
    }
  }

  lemma ShorterThroughNarrow(dest: RegisterID, value: nat, n: nat)
    requires dest != ZR && value < Modulus(D64)
    requires ThroughNarrow(Halfwords(value, 4)) < n
    ensures !NoneShorter(dest, value, n)
  {
    var ds: Register := Halfwords(value, 4);
    NarrowAlwaysSets(dest, value);
    NarrowLength(dest, ds);
  }

  lemma OtherwiseShortest(sf: Datasize, dest: RegisterID, value: nat, n: nat)
    requires dest != ZR && value < Modulus(sf) && n == |MoveProgram(sf, dest, value)|
    requires sf == D64 ==> n <= ThroughNarrow(Halfwords(value, 4))
    ensures NoneShorter(dest, value, n)
  {
    forall program | AllMoves(dest, program) && AlwaysSets(dest, value, program)
      ensures n <= |program|
    {
      MoveLowerBound(sf, dest, value, program, true);
    }
  }

  /** The emitted program is as short as any of both sizes exactly when the immediate has no shorter way
      through a 32-bit `movn`; for a 32-bit destination always. */
  lemma ShortestExactly(sf: Datasize, dest: RegisterID, value: nat)
    requires dest != ZR && value < Modulus(sf)
    ensures NoneShorter(dest, value, |MoveProgram(sf, dest, value)|) <==>
            (sf == D64 ==> MoveCost(Halfwords(value, 4)) <= ThroughNarrow(Halfwords(value, 4)))
  {
    var n := |MoveProgram(sf, dest, value)|;
    MoveLength(sf, dest, value);
    if sf == D64 && ThroughNarrow(Halfwords(value, 4)) < n {
      ShorterThroughNarrow(dest, value, n);
    } else {
      OtherwiseShortest(sf, dest, value, n);
    }
  }

  /** The 32-bit `movn` itself costs a move even when the lower half is all ones: one halfword away from
      what it leaves, this value still takes two moves. */
  lemma NarrowMoveIsCounted(dest: RegisterID)
    requires dest != ZR
    ensures Differences(Halfwords(0x1234_ffff_ffff, 4), [0xffff, 0xffff, 0, 0]) == 1
    ensures |MoveProgram(D64, dest, 0x1234_ffff_ffff)| == 2
    ensures NoneShorter(dest, 0x1234_ffff_ffff, 2)
  {
    var ones, top := Repeat(0xffff, 2), [0x1234, 0];
    assert Halfwords(0x1234_ffff_ffff, 4) == ones + top;
    assert ones + Repeat(0, 2) == [0xffff, 0xffff, 0, 0];
    NoDifferences(ones);
    DifferencesOfHalves(ones, top, ones, Repeat(0, 2));
    DifferencesFromRepeat(top, 0);
    CountsOfHalves(ones + top, 0);
    CountsOfHalves(ones + top, 0xffff);
    CountOfFull(ones, 0xffff);
    assert CountOf(ones, 0) == 0 && CountOf(top, 0) == 1 && CountOf(top, 0xffff) == 0 by {
      assert top[1..] == [0] && top[1..][1..] == [] && ones[1..] == [0xffff] && ones[1..][1..] == [];
    }
    ShortestExactly(D64, dest, 0x1234_ffff_ffff);
    MoveLength(D64, dest, 0x1234_ffff_ffff);
  }

  /** So a 32-bit `movn` reaches 0xffff_ffff in one move where two are emitted. */
  lemma MixedSizesCanBeShorter(s: State, dest: RegisterID)
    requires dest != ZR
    ensures ExecAll(s, [MoveWide(D32, MovN, dest, 0, 0)]) == s.SetX(dest, 0xffff_ffff)
    ensures |MoveProgram(D64, dest, 0xffff_ffff)| == 2
  {
    ExecClear(s, D32, dest);
    MoveLength(D64, dest, 0xffff_ffff);
    var zeros, ones := Repeat(0, 2), Repeat(0xffff, 2);
    assert Halfwords(0xffff_ffff, 4) == ones + zeros;
    CountOfAppend(ones, zeros, 0);
    CountOfAppend(ones, zeros, 0xffff);
    CountOfFull(zeros, 0);
    CountOfFull(ones, 0xffff);
  }
}
