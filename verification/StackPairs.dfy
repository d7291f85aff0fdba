/** Spilling two registers to the stack and taking them back. */
module StackPairs {
  import opened Instructions
  import opened Machine
  import Modular
  import opened MemoryAccess

  function PushPair(src1: RegisterID, src2: RegisterID): Instr {
    LoadStorePair(PreIndex, Store, src1, src2, SP, -16)
  }

  function PopPair(dest1: RegisterID, dest2: RegisterID): Instr {
    LoadStorePair(PostIndex, Load, dest1, dest2, SP, 16)
  }

  /** A load is not disturbed by a store whose bytes are all elsewhere. */
  lemma {:induction false} ReadElsewhere(s: State, at: U64, n: nat, other: U64, m: nat, value: nat)
    requires forall i :: 0 <= i < n ==> Outside(Address(at, i), other, m)
    ensures ReadBytes(s.(memory := WriteBytes(s.memory, other, m, value)), at, n) == ReadBytes(s, at, n)
    decreases n
  {
    if n > 0 {
      assert Address(at, 0) == at;
      assert Outside(Address(at, 0), other, m);
      WriteElsewhere(s.memory, other, m, value, at);
      forall i | 0 <= i < n - 1
        ensures Outside(Address(Address(at, 1), i), other, m)
      {
        AddressSum(at, 1, i);
        assert Outside(Address(at, i + 1), other, m);
      }
      ReadElsewhere(s, Address(at, 1), n - 1, other, m, value);
    }
  }

  lemma HalvesApart(at: U64, i: nat, j: nat)
    requires i < 8 && j < 8
    ensures Address(at, i) != Address(Address(at, 8), j)
  {
    AddressSum(at, 8, j);
    Modular.Wrap(at + i, 0x1_0000_0000_0000_0000);
    Modular.Wrap(at + 8 + j, 0x1_0000_0000_0000_0000);
  }

  lemma WholeWord(value: U64)
    ensures value % Pow256(8) == value
  {
    assert Pow256(2) == 0x1_0000 && Pow256(4) == 0x1_0000_0000 && Pow256(6) == 0x1_0000_0000_0000;
  }

  /** Two words stored side by side are both read back. */
  lemma PairReadsBack(s: State, at: U64, a: U64, b: U64)
    ensures var first := s.(memory := WriteBytes(s.memory, at, 8, a));
            var both := first.(memory := WriteBytes(first.memory, Address(at, 8), 8, b));
            ReadBytes(both, at, 8) == a && ReadBytes(both, Address(at, 8), 8) == b
  {
    var first := s.(memory := WriteBytes(s.memory, at, 8, a));
    StoreThenLoad(s, at, 8, a);
    StoreThenLoad(first, Address(at, 8), 8, b);
    WholeWord(a);
    WholeWord(b);
    forall i | 0 <= i < 8
      ensures Outside(Address(at, i), Address(at, 8), 8)
    {
      forall j | 0 <= j < 8
        ensures Address(at, i) != Address(Address(at, 8), j)
      {
        HalvesApart(at, i, j);
      }
    }
    ReadElsewhere(first, at, 8, Address(at, 8), 8, b);
  }

  function Pushed(s: State, a: U64, b: U64, at: U64): State {
    var first := s.(memory := WriteBytes(s.memory, at, 8, a));
    first.(memory := WriteBytes(first.memory, Address(at, 8), 8, b)).SetX(SP, at)
  }

  lemma ExecPush(s: State, src1: RegisterID, src2: RegisterID)
    ensures Exec(s, PushPair(src1, src2)) == Pushed(s, s.X(src1), s.X(src2), Address(s.X(SP), -16))
  {
  }

  /** The registers after taking a pair back. */
  function Popped(t: State, dest1: RegisterID, dest2: RegisterID): State {
    var a, b := ReadBytes(t, t.X(SP), 8), ReadBytes(t, Address(t.X(SP), 8), 8);
    t.SetX(dest1, a % 0x1_0000_0000_0000_0000).SetX(dest2, b % 0x1_0000_0000_0000_0000)
     .SetX(SP, Address(t.X(SP), 16))
  }

  lemma ExecPopped(t: State, dest1: RegisterID, dest2: RegisterID)
    ensures Exec(t, PopPair(dest1, dest2)) == Popped(t, dest1, dest2)
  {
    var first := t.SetX(dest1, ReadBytes(t, t.X(SP), 8) % 0x1_0000_0000_0000_0000);
    ReadSameMemory(t, first, Address(t.X(SP), 8), 8);
  }

  lemma ExecPop(t: State, dest1: RegisterID, dest2: RegisterID, a: U64, b: U64)
    requires a == ReadBytes(t, t.X(SP), 8) && b == ReadBytes(t, Address(t.X(SP), 8), 8)
    ensures Exec(t, PopPair(dest1, dest2)) == t.SetX(dest1, a).SetX(dest2, b).SetX(SP, Address(t.X(SP), 16))
  {
    ExecPopped(t, dest1, dest2);
    Modular.Wrap(a, 0x1_0000_0000_0000_0000);
    Modular.Wrap(b, 0x1_0000_0000_0000_0000);
  }

  lemma PushedReadsBack(s: State, a: U64, b: U64, at: U64)
    ensures var t := Pushed(s, a, b, at);
            ReadBytes(t, at, 8) == a && ReadBytes(t, Address(at, 8), 8) == b && t.X(SP) == at
  {
    var first := s.(memory := WriteBytes(s.memory, at, 8, a));
    var both := first.(memory := WriteBytes(first.memory, Address(at, 8), 8, b));
    PairReadsBack(s, at, a, b);
    ReadSameMemory(both, both.SetX(SP, at), at, 8);
    ReadSameMemory(both, both.SetX(SP, at), Address(at, 8), 8);
  }

  lemma TwoMoved(s: State, t: State, dest1: RegisterID, dest2: RegisterID, a: U64, b: U64, at: U64)
    requires dest1 != dest2 && dest1 != SP && dest2 != SP && dest1 != ZR && dest2 != ZR && t.regs == s.regs[SP := at]
    ensures var after := t.SetX(dest1, a).SetX(dest2, b).SetX(SP, s.X(SP));
            after.X(dest1) == a && after.X(dest2) == b && forall r :: r != dest1 && r != dest2 ==> after.X(r) == s.X(r)
  {
  }

  /** A push and a pop move two registers through the stack and leave every other register, the stack pointer
      included, as it was; the same two registers are thereby restored. */
  lemma PushThenPop(s: State, src1: RegisterID, src2: RegisterID, dest1: RegisterID, dest2: RegisterID)
    requires dest1 != dest2 && dest1 != SP && dest2 != SP && dest1 != ZR && dest2 != ZR && src1 != SP && src2 != SP
    ensures var after := Exec(Exec(s, PushPair(src1, src2)), PopPair(dest1, dest2));
            && after.X(dest1) == s.X(src1) && after.X(dest2) == s.X(src2)
            && forall r :: r != dest1 && r != dest2 ==> after.X(r) == s.X(r)
  {
    var a, b, at := s.X(src1), s.X(src2), Address(s.X(SP), -16);
    ExecPush(s, src1, src2);
    PushedReadsBack(s, a, b, at);
    ExecPop(Pushed(s, a, b, at), dest1, dest2, a, b);
    BackUp(s.X(SP));
    TwoMoved(s, Pushed(s, a, b, at), dest1, dest2, a, b, at);
  }

  lemma BackUp(sp: U64)
    ensures Address(Address(sp, -16), 16) == sp
  {
    AddressSum(sp, -16, 16);
  }
}
