/** Accesses whose operands are in the scratch register: exactly when they go wrong. */
module ScratchConflicts {
  import opened Instructions
  import opened Machine
  import Modular
  import opened Immediates
  import opened MoveImmediate
  import opened Arithmetic
  import opened MemoryAccess

  // ---- A wrong address or value shows ----

  lemma LowByteKept(x: nat)
    ensures x % 0x1_0000_0000_0000_0000 % 256 == x % 256
  {
    assert x == x / 0x1_0000_0000_0000_0000 * 0x1_0000_0000_0000_0000 + x % 0x1_0000_0000_0000_0000;
    Modular.WrapShift(x % 0x1_0000_0000_0000_0000, x / 0x1_0000_0000_0000_0000 * 0x100_0000_0000_0000, 256);
  }

  lemma ReadLowByte(s: State, at: U64, n: nat)
    requires n > 0
    ensures ReadBytes(s, at, n) % 0x1_0000_0000_0000_0000 % 256 == s.Byte(at)
  {
    LowByteKept(ReadBytes(s, at, n));
    Modular.WrapOnce(ReadBytes(s, at, n), ReadBytes(s, Address(at, 1), n - 1), 256);
  }

  /** With a 1 at one address only, a load from another shows. */
  lemma LoadShows(s: State, u: State, t: State, size: MemOpSize, rt: RegisterID, right: U64, wrong: U64)
    requires rt != ZR && right != wrong && s.memory == u.memory == map[right := 1]
    ensures Access(u, size, Load, rt, wrong) != Accessed(s, t, size, Load, rt, right)
  {
    var x := ReadBytes(u, wrong, Bytes(size)) % 0x1_0000_0000_0000_0000;
    var y := ReadBytes(s, right, Bytes(size)) % 0x1_0000_0000_0000_0000;
    ReadLowByte(u, wrong, Bytes(size));
    ReadLowByte(s, right, Bytes(size));
    assert u.Byte(wrong) == 0 && s.Byte(right) == 1;
    SetTwice(u, rt, x, 0);
    SetTwice(t, rt, y, 0);
  }

  lemma WrittenFirst(memory: map<U64, U8>, at: U64, n: nat, value: nat)
    requires 0 < n <= 8
    ensures at in WriteBytes(memory, at, n, value) && WriteBytes(memory, at, n, value)[at] == value % 256
  {
    FirstOutsideRest(at, n);
    WriteElsewhere(memory[at := value % 256], Address(at, 1), n - 1, value / 256, at);
  }

  /** Of two short ranges one does not cover the start of the other. */
  lemma OneOutside(a: U64, b: U64, n: nat)
    requires a != b && n <= 8
    ensures Outside(a, b, n) || Outside(b, a, n)
  {
    if !Outside(a, b, n) && !Outside(b, a, n) {
      var i :| 0 <= i < n && a == Address(b, i);
      var j :| 0 <= j < n && b == Address(a, j);
      Modular.Wrap(b + i, 0x1_0000_0000_0000_0000);
      Modular.Wrap(a + j, 0x1_0000_0000_0000_0000);
      assert false;
    }
  }

  /** Into empty memory, a store to another address shows. */
  lemma StoreShows(s: State, u: State, t: State, size: MemOpSize, rt: RegisterID, right: U64, wrong: U64)
    requires right != wrong && s.memory == u.memory == map[]
    ensures Access(u, size, Store, rt, wrong) != Accessed(s, t, size, Store, rt, right)
  {
    var n := Bytes(size);
    OneOutside(right, wrong, n);
    WrittenFirst(map[], right, n, s.X(rt));
    WrittenFirst(map[], wrong, n, u.X(rt));
    if Outside(right, wrong, n) {
      WriteElsewhere(map[], wrong, n, u.X(rt), right);
    } else {
      WriteElsewhere(map[], right, n, s.X(rt), wrong);
    }
  }

  /** So does a store of another value, within the size stored. */
  lemma ValueShows(s: State, u: State, t: State, size: MemOpSize, rt: RegisterID, at: U64)
    requires s.X(rt) % Pow256(Bytes(size)) != u.X(rt) % Pow256(Bytes(size))
    ensures Access(u, size, Store, rt, at) != Accessed(s, t, size, Store, rt, at)
  {
    var n := Bytes(size);
    var right := WriteBytes(s.memory, at, n, s.X(rt));
    var wrong := WriteBytes(u.memory, at, n, u.X(rt));
    StoreThenLoad(s, at, n, s.X(rt));
    StoreThenLoad(u, at, n, u.X(rt));
    ReadSameMemory(s.(memory := right), u.(memory := right), at, n);
  }

  /** A value that differs from `value` within the size stored. */
  function OtherValue(size: MemOpSize, value: U64): U64 {
    if value % Pow256(Bytes(size)) == 0 then 1 else 0
  }

  lemma SizeValues(size: MemOpSize)
    ensures Pow256(1) == 0x100 && Pow256(2) == 0x1_0000 && Pow256(4) == 0x1_0000_0000
    ensures Pow256(8) == 0x1_0000_0000_0000_0000
    ensures Pow256(Bytes(size)) > 1
  {
    assert Pow256(3) == 0x100_0000 && Pow256(5) == 0x100_0000_0000 && Pow256(6) == 0x1_0000_0000_0000;
    assert Pow256(7) == 0x100_0000_0000_0000;
  }

  lemma OtherDiffers(size: MemOpSize, value: U64)
    ensures OtherValue(size, value) % Pow256(Bytes(size)) != value % Pow256(Bytes(size))
  {
    SizeValues(size);
    Modular.Wrap(OtherValue(size, value), Pow256(Bytes(size)));
  }

  /** A state whose scratch register holds `x`, the others 0, and memory that shows a wrong address. */
  function Witness(mem: MemOp, x: U64, right: U64): State {
    State(map[IP1 := x], Flags(false, false, false, false), if mem == Load then map[right := 1] else map[])
  }

  lemma AddressShows(s: State, u: State, t: State, size: MemOpSize, mem: MemOp, rt: RegisterID, right: U64, wrong: U64,
                     x: U64)
    requires mem == Load ==> rt != ZR
    requires right != wrong && s == Witness(mem, x, right) && u.memory == s.memory
    ensures Access(u, size, mem, rt, wrong) != Accessed(s, t, size, mem, rt, right)
  {
    if mem == Load {
      LoadShows(s, u, t, size, rt, right, wrong);
    } else {
      StoreShows(s, u, t, size, rt, right, wrong);
    }
  }

  // ---- Base and offset ----

  predicate AddressDone(s: State, t: State, size: MemOpSize, mem: MemOp, rt: RegisterID, base: RegisterID,
                        offset: I32)
  {
    t == Accessed(s, if UsesScratch(size, offset) then s.SetX(IP1, offset % 0x1_0000_0000_0000_0000) else s,
                  size, mem, rt, Address(s.X(base), offset))
  }

  /** The access is at the base plus the offset from every state. */
  ghost predicate AccessesAddress(size: MemOpSize, mem: MemOp, rt: RegisterID, base: RegisterID, offset: I32) {
    forall s: State ::
      AddressDone(s, ExecAll(s, LoadStoreAddress(size, mem, rt, base, offset)), size, mem, rt, base, offset)
  }

  /** The path through the scratch register, whatever its operands. */
  lemma ScratchRun(s: State, size: MemOpSize, mem: MemOp, rt: RegisterID, base: RegisterID, offset: I32)
    requires UsesScratch(size, offset)
    ensures var value := offset % 0x1_0000_0000_0000_0000;
            var u := s.SetX(IP1, value);
            ExecAll(s, LoadStoreAddress(size, mem, rt, base, offset)) ==
            Access(u, size, mem, rt, Address(u.X(base), value))
  {
    var value := offset % 0x1_0000_0000_0000_0000;
    var u := s.SetX(IP1, value);
    var last := LoadStoreRegister(size, mem, rt, base, IP1, Uxtx, false);
    MoveSets(s, D64, IP1, value);
    ExecAllAppend(s, OffsetInScratch(offset), [last]);
    ExecAllOne(u, last);
    ExecRegisterOffset(u, size, mem, rt, base, IP1);
    SetTwice(s, IP1, value, 0);
  }

  lemma DoubledDiffers(offset: I32)
    requires offset != 0
    ensures var value := offset % 0x1_0000_0000_0000_0000;
            value != Address(value, value)
  {
    var value := offset % 0x1_0000_0000_0000_0000;
    Modular.Wrap(offset, 0x1_0000_0000_0000_0000);
    Modular.Wrap(value + value, 0x1_0000_0000_0000_0000);
  }

  lemma ScratchOffset(size: MemOpSize, offset: I32)
    requires UsesScratch(size, offset)
    ensures offset != 0
  {
  }

  lemma BaseLost(size: MemOpSize, mem: MemOp, rt: RegisterID, offset: I32)
    requires UsesScratch(size, offset) && (mem == Load ==> rt != ZR)
    ensures !AccessesAddress(size, mem, rt, IP1, offset)
  {
    var value := offset % 0x1_0000_0000_0000_0000;
    var s := Witness(mem, 0, value);
    var u, right := s.SetX(IP1, value), Address(s.X(IP1), offset);
    ScratchOffset(size, offset);
    DoubledDiffers(offset);
    ScratchRun(s, size, mem, rt, IP1, offset);
    SetTwice(s, IP1, value, 0);
    AddressShows(s, u, u, size, mem, rt, right, Address(value, value), 0);
    assert !AddressDone(s, ExecAll(s, LoadStoreAddress(size, mem, rt, IP1, offset)), size, mem, rt, IP1, offset);
  }

  lemma ValueLost(size: MemOpSize, base: RegisterID, offset: I32)
    requires UsesScratch(size, offset) && base != IP1
    ensures !AccessesAddress(size, Store, IP1, base, offset)
  {
    var value := offset % 0x1_0000_0000_0000_0000;
    var s := Witness(Store, OtherValue(size, value), 0);
    ScratchRun(s, size, Store, IP1, base, offset);
    StoredValueLost(s, size, base, offset, value);
    var t := ExecAll(s, LoadStoreAddress(size, Store, IP1, base, offset));
    assert !AddressDone(s, t, size, Store, IP1, base, offset);
  }

  lemma StoredValueLost(s: State, size: MemOpSize, base: RegisterID, offset: int, value: U64)
    requires value == offset % 0x1_0000_0000_0000_0000 && s.X(IP1) == OtherValue(size, value) && base != IP1
    ensures var u := s.SetX(IP1, value);
            Access(u, size, Store, IP1, Address(u.X(base), value)) !=
            Accessed(s, u, size, Store, IP1, Address(s.X(base), offset))
  {
    var u := s.SetX(IP1, value);
    SetTwice(s, IP1, value, 0);
    AddressSum(s.X(base), offset, 0);
    assert u.X(base) == s.X(base);
    OtherDiffers(size, value);
    ValueShows(s, u, u, size, IP1, Address(s.X(base), offset));
  }

  /** The access is right from every state exactly when it does not go through the scratch register with
      its base or stored value there. A load into `zr` has nothing to get wrong. */
  lemma AddressExact(size: MemOpSize, mem: MemOp, rt: RegisterID, base: RegisterID, offset: I32)
    requires mem == Load ==> rt != ZR
    ensures AccessesAddress(size, mem, rt, base, offset) <==>
      (UsesScratch(size, offset) ==> base != IP1 && (mem == Store ==> rt != IP1))
  {
    if UsesScratch(size, offset) ==> base != IP1 && (mem == Store ==> rt != IP1) {
      forall s: State
        ensures AddressDone(s, ExecAll(s, LoadStoreAddress(size, mem, rt, base, offset)), size, mem, rt, base, offset)
      {
        LoadStoreAddressMeaning(s, size, mem, rt, base, offset);
      }
    } else if base == IP1 {
      BaseLost(size, mem, rt, offset);
    } else {
      ValueLost(size, base, offset);
    }
  }

  // ---- Base and index ----

  predicate IndexedDone(s: State, t: State, size: MemOpSize, mem: MemOp, rt: RegisterID, address: BaseIndex) {
    t == Accessed(s, IndexScratch(s, size, address), size, mem, rt, EffectiveAddress(s, address))
  }

  /** The access is at the base plus the offset plus the scaled index from every state. */
  ghost predicate AccessesIndexed(size: MemOpSize, mem: MemOp, rt: RegisterID, address: BaseIndex) {
    forall s: State :: IndexedDone(s, ExecAll(s, LoadStoreBaseIndex(size, mem, rt, address)), size, mem, rt, address)
  }

  /** What the access adds for the index when its register holds `x`. */
  function IndexTerm(address: BaseIndex, x: U64): int {
    ScaleBy(Extend(IndexExtendType(address.extend), x), ScaleLog2(address.scale))
  }

  /** The scratch register once the base is folded into it. */
  function FoldedScratch(s: State, address: BaseIndex): State {
    s.SetX(IP1, Address(s.X(address.base), address.offset))
  }

  lemma FoldedRun(s: State, size: MemOpSize, mem: MemOp, rt: RegisterID, address: BaseIndex)
    requires FoldsIndex(size, address) && address.offset != 0
    ensures var u := FoldedScratch(s, address);
            ExecAll(s, LoadStoreBaseIndex(size, mem, rt, address)) ==
            Access(u, size, mem, rt, Address(u.X(IP1), IndexTerm(address, u.X(address.index))))
  {
    var BaseIndex(base, index, scale, offset, extend) := address;
    ExtractionExact(offset);
    var u := FoldedScratch(s, address);
    var folded := FoldedProgram(D64, Add, TryExtractShiftedImm32(offset).value, base, IP1);
    var last := LoadStoreRegister(size, mem, rt, IP1, index, IndexExtendType(extend), scale != TimesOne);
    FoldedMeaning(s, D64, Add, offset, base, IP1);
    WholeRegister(s, base);
    ExecAllAppend(s, folded, [last]);
    ExecAllOne(u, last);
    ExecIndexed(u, size, mem, rt, IP1, index, IndexExtendType(extend), scale != TimesOne,
                IndexTerm(address, u.X(index)));
  }

  /** The scratch register once the offset and the index are added up in it. */
  function SummedScratch(s: State, address: BaseIndex): State {
    var value := address.offset % 0x1_0000_0000_0000_0000;
    s.SetX(IP1, (value + IndexTerm(address, s.SetX(IP1, value).X(address.index))) % 0x1_0000_0000_0000_0000)
  }

  lemma ExecAddTerm(s: State, value: U64, address: BaseIndex)
    ensures var t := s.SetX(IP1, value);
            Exec(t, AddSubExtended(D64, Add, false, IP1, IP1, address.index, IndexExtendType(address.extend),
                                   ScaleLog2(address.scale))) ==
            s.SetX(IP1, (value + IndexTerm(address, t.X(address.index))) % 0x1_0000_0000_0000_0000)
  {
    var m := 0x1_0000_0000_0000_0000;
    var t := s.SetX(IP1, value);
    var term := IndexTerm(address, t.X(address.index));
    SetTwice(s, IP1, value, (value + term) % m);
    WholeRegister(t, IP1);
    SumWraps(Add, value, term, m);
  }

  lemma SummedTail(s: State, value: U64, address: BaseIndex, add: Instr, last: Instr)
    requires value == address.offset % 0x1_0000_0000_0000_0000
    requires add == AddSubExtended(D64, Add, false, IP1, IP1, address.index, IndexExtendType(address.extend),
                                   ScaleLog2(address.scale))
    ensures ExecAll(s.SetX(IP1, value), [add, last]) == Exec(SummedScratch(s, address), last)
  {
    ExecTwo(s.SetX(IP1, value), add, last);
    ExecAddTerm(s, value, address);
  }

  lemma SummedProgram(s: State, address: BaseIndex, last: Instr)
    ensures ExecAll(s, OffsetInScratch(address.offset)
                       + [AddSubExtended(D64, Add, false, IP1, IP1, address.index, IndexExtendType(address.extend),
                                         ScaleLog2(address.scale)),
                          last]) ==
      Exec(SummedScratch(s, address), last)
  {
    var value := address.offset % 0x1_0000_0000_0000_0000;
    var add := AddSubExtended(D64, Add, false, IP1, IP1, address.index, IndexExtendType(address.extend),
                              ScaleLog2(address.scale));
    MoveSets(s, D64, IP1, value);
    ExecAllAppend(s, OffsetInScratch(address.offset), [add, last]);
    SummedTail(s, value, address, add, last);
  }

  lemma SummedRun(s: State, size: MemOpSize, mem: MemOp, rt: RegisterID, address: BaseIndex)
    requires !FoldsIndex(size, address)
    ensures var u := SummedScratch(s, address);
            ExecAll(s, LoadStoreBaseIndex(size, mem, rt, address)) ==
            Access(u, size, mem, rt, Address(u.X(address.base), u.X(IP1)))
  {
    var u := SummedScratch(s, address);
    var last := LoadStoreRegister(size, mem, rt, address.base, IP1, Uxtx, false);
    FullIndexShape(size, mem, rt, address);
    SummedProgram(s, address, last);
    ExecRegisterOffset(u, size, mem, rt, address.base, IP1);
  }

  // ---- What an index adds ----

  lemma NotMultiple(x: int, q: int, m: int)
    requires 0 < m && -m < x - q * m < m && x != q * m
    ensures x % m != 0
  {
    if x > q * m {
      Modular.WrapOnce(x, q, m);
    } else {
      assert (q - 1) * m == q * m - m;
      Modular.WrapOnce(x, q - 1, m);
    }
  }

  lemma ScaleByValues(x: int, amount: nat)
    requires amount < 4
    ensures ScaleBy(x, amount) ==
      x * (if amount == 0 then 1 else if amount == 1 then 2 else if amount == 2 then 4 else 8)
  {
    assert ScaleBy(x, 0) == x && ScaleBy(x, 1) == 2 * ScaleBy(x, 0);
    assert ScaleBy(x, 2) == 2 * ScaleBy(x, 1) && ScaleBy(x, 3) == 2 * ScaleBy(x, 2);
  }

  lemma NoIndex(address: BaseIndex)
    ensures IndexTerm(address, 0) == 0 && 0 < IndexTerm(address, 1) <= 8
  {
    ScaleByValues(0, ScaleLog2(address.scale));
    ScaleByValues(1, ScaleLog2(address.scale));
  }

  /** The extension of an immediate is it, up to a multiple of 2^64, or it wrapped to 32 bits. */
  lemma ExtendedImmediate(extend: IndexExtend, offset: I32)
    ensures var e := Extend(IndexExtendType(extend), offset % 0x1_0000_0000_0000_0000);
            e == offset || e == offset + 0x1_0000_0000 || e == offset + 0x1_0000_0000_0000_0000
    ensures var e := Extend(IndexExtendType(extend), offset % 0x1_0000_0000_0000_0000);
            e != offset ==> offset < 0
  {
    Modular.Wrap(offset, 0x1_0000_0000_0000_0000);
    Modular.Wrap(offset, 0x1_0000_0000);
    if offset < 0 {
      Modular.WrapOnce(offset + 0x1_0000_0000_0000_0000, 0xffff_ffff, 0x1_0000_0000);
    }
  }

  lemma TermOfOffset(address: BaseIndex)
    requires address.offset != 0
    ensures var term := IndexTerm(address, address.offset % 0x1_0000_0000_0000_0000);
            term % 0x1_0000_0000_0000_0000 != 0 && (address.offset + 2 * term) % 0x1_0000_0000_0000_0000 != 0
  {
    var m := 0x1_0000_0000_0000_0000;
    var offset: int := address.offset;
    var e := Extend(IndexExtendType(address.extend), offset % m);
    var amount := ScaleLog2(address.scale);
    var p := if amount == 0 then 1 else if amount == 1 then 2 else if amount == 2 then 4 else 8;
    ExtendedImmediate(address.extend, offset);
    ScaleByValues(e, amount);
    if e == offset + m {
      NotMultiple(e * p, p, m);
      NotMultiple(offset + 2 * (e * p), 2 * p, m);
    } else {
      NotMultiple(e * p, 0, m);
      NotMultiple(offset + 2 * (e * p), 0, m);
    }
  }

  // ---- The operands that are lost ----

  lemma FoldedIndexLost(size: MemOpSize, mem: MemOp, rt: RegisterID, address: BaseIndex)
    requires FoldsIndex(size, address) && address.offset != 0 && address.index == IP1 && (mem == Load ==> rt != ZR)
    ensures !AccessesIndexed(size, mem, rt, address)
  {
    var value := address.offset % 0x1_0000_0000_0000_0000;
    var s := Witness(mem, 0, value);
    var u := FoldedScratch(s, address);
    var term := IndexTerm(address, value);
    NoIndex(address);
    TermOfOffset(address);
    FoldedRun(s, size, mem, rt, address);
    assert EffectiveAddress(s, address) == value && u.X(IP1) == value;
    TermMoves(value, term);
    AddressShows(s, u, IndexScratch(s, size, address), size, mem, rt, value, Address(value, term), 0);
    assert !IndexedDone(s, ExecAll(s, LoadStoreBaseIndex(size, mem, rt, address)), size, mem, rt, address);
  }

  lemma TermMoves(value: U64, term: int)
    requires term % 0x1_0000_0000_0000_0000 != 0
    ensures Address(value, term) != value
  {
    var m := 0x1_0000_0000_0000_0000;
    if (value + term) % m == value {
      var q := (value + term) / m;
      assert term == q * m;
      Modular.WrapOnce(term, q, m);
    }
  }

  lemma FoldedRegisters(s: State, address: BaseIndex)
    ensures var u := FoldedScratch(s, address);
            u.X(IP1) == Address(s.X(address.base), address.offset) &&
            (address.index != IP1 ==> u.X(address.index) == s.X(address.index))
  {
  }

  lemma EffectiveSum(s: State, address: BaseIndex, base: U64, term: int)
    requires base == s.X(address.base) && term == IndexTerm(address, s.X(address.index))
    ensures EffectiveAddress(s, address) == Address(base, address.offset + term)
  {
  }

  /** An index in another register keeps a folded access where it should be. */
  lemma FoldedAddress(s: State, address: BaseIndex)
    requires address.index != IP1
    ensures var u := FoldedScratch(s, address);
            && u.X(IP1) == Address(s.X(address.base), address.offset)
            && Address(u.X(IP1), IndexTerm(address, u.X(address.index))) == EffectiveAddress(s, address)
  {
    var base := s.X(address.base);
    var term := IndexTerm(address, s.X(address.index));
    var at := EffectiveAddress(s, address);
    FoldedRegisters(s, address);
    EffectiveSum(s, address, base, term);
    AddressSum(base, address.offset, term);
  }

  lemma FoldedStore(s: State, size: MemOpSize, address: BaseIndex, u: State, scratch: State, at: U64)
    requires FoldsIndex(size, address) && address.offset != 0 && address.index != IP1
    requires u == FoldedScratch(s, address) && scratch == IndexScratch(s, size, address)
    requires at == EffectiveAddress(s, address)
    ensures ExecAll(s, LoadStoreBaseIndex(size, Store, IP1, address)) == Access(u, size, Store, IP1, at)
    ensures scratch == u
  {
    FoldedRun(s, size, Store, IP1, address);
    FoldedAddress(s, address);
  }

  /** A store of a value that differs within the size stored is not the access. */
  lemma StoreNotDone(s: State, size: MemOpSize, address: BaseIndex, t: State, u: State, scratch: State, at: U64)
    requires scratch == IndexScratch(s, size, address) && at == EffectiveAddress(s, address)
    requires t == Access(u, size, Store, IP1, at)
    requires s.X(IP1) % Pow256(Bytes(size)) != u.X(IP1) % Pow256(Bytes(size))
    ensures !IndexedDone(s, t, size, Store, IP1, address)
  {
    ValueShows(s, u, scratch, size, IP1, at);
  }

  lemma FoldedValueLost(size: MemOpSize, address: BaseIndex)
    requires FoldsIndex(size, address) && address.offset != 0 && address.base != IP1 && address.index != IP1
    ensures !AccessesIndexed(size, Store, IP1, address)
  {
    var value := address.offset % 0x1_0000_0000_0000_0000;
    var s := Witness(Store, OtherValue(size, value), 0);
    var t := ExecAll(s, LoadStoreBaseIndex(size, Store, IP1, address));
    var u, scratch, at := FoldedScratch(s, address), IndexScratch(s, size, address), EffectiveAddress(s, address);
    FoldedStore(s, size, address, u, scratch, at);
    FoldedRegisters(s, address);
    OtherDiffers(size, value);
    StoreNotDone(s, size, address, t, u, scratch, at);
  }

  lemma CongruentOffset(size: MemOpSize, x: U64, offset: int)
    ensures offset % Pow256(Bytes(size)) == 0 ==>
      Address(x, offset) % Pow256(Bytes(size)) == x % Pow256(Bytes(size))
    ensures Address(0, offset) % Pow256(Bytes(size)) == offset % Pow256(Bytes(size))
  {
    var p := Pow256(Bytes(size));
    SizeValues(size);
    CongruentAddress(x + offset, p);
    CongruentAddress(offset, p);
    if offset % p == 0 {
      assert offset == offset / p * p;
      Modular.WrapShift(x, offset / p, p);
    }
  }

  lemma CongruentAddress(x: int, p: nat)
    requires p == 0x100 || p == 0x1_0000 || p == 0x1_0000_0000 || p == 0x1_0000_0000_0000_0000
    ensures x % 0x1_0000_0000_0000_0000 % p == x % p
  {
    var m := 0x1_0000_0000_0000_0000;
    var q := x / m * (m / p);
    assert x == x % m + q * p;
    Modular.WrapShift(x % m, q, p);
  }

  lemma FoldedBaseValueLost(size: MemOpSize, address: BaseIndex)
    requires FoldsIndex(size, address) && address.offset != 0 && address.base == IP1 && address.index != IP1
    requires address.offset % Pow256(Bytes(size)) != 0
    ensures !AccessesIndexed(size, Store, IP1, address)
  {
    var s := Witness(Store, 0, 0);
    var u, scratch, at := FoldedScratch(s, address), IndexScratch(s, size, address), EffectiveAddress(s, address);
    FoldedStore(s, size, address, u, scratch, at);
    FoldedAddress(s, address);
    CongruentOffset(size, 0, address.offset);
    ValueShows(s, u, scratch, size, IP1, at);
    assert !IndexedDone(s, ExecAll(s, LoadStoreBaseIndex(size, Store, IP1, address)), size, Store, IP1, address);
  }

  // ---- A base that is also stored ----

  lemma {:induction false} WriteCongruent(memory: map<U64, U8>, at: U64, n: nat, v: nat, w: nat)
    requires v % Pow256(n) == w % Pow256(n)
    ensures WriteBytes(memory, at, n, v) == WriteBytes(memory, at, n, w)
    decreases n
  {
    if n > 0 {
      LowByte(v, Pow256(n - 1));
      LowByte(w, Pow256(n - 1));
      WriteCongruent(memory[at := v % 256], Address(at, 1), n - 1, v / 256, w / 256);
    }
  }

  lemma StoredBaseSurvives(s: State, size: MemOpSize, address: BaseIndex)
    requires FoldsIndex(size, address) && address.offset != 0 && address.base == IP1 && address.index != IP1
    requires address.offset % Pow256(Bytes(size)) == 0
    ensures IndexedDone(s, ExecAll(s, LoadStoreBaseIndex(size, Store, IP1, address)), size, Store, IP1, address)
  {
    var u, scratch, at := FoldedScratch(s, address), IndexScratch(s, size, address), EffectiveAddress(s, address);
    FoldedStore(s, size, address, u, scratch, at);
    FoldedAddress(s, address);
    CongruentOffset(size, s.X(IP1), address.offset);
    WriteCongruent(s.memory, at, Bytes(size), u.X(IP1), s.X(IP1));
  }

  // ---- Offset and index added up in the scratch register ----

  /** A register value that an offset of the scratch register is told from. */
  function Telling(address: BaseIndex): U64 {
    if address.offset == 0 then 1 else 0
  }

  lemma SumTwice(offset: int, term: int)
    ensures var m := 0x1_0000_0000_0000_0000;
            var sum := (offset % m + term) % m;
            Address(sum, sum) == Address(offset % m, offset + 2 * term)
  {
    var m := 0x1_0000_0000_0000_0000;
    var value := offset % m;
    var sum := (value + term) % m;
    WrappedAdd(sum, value + term, m);
    WrappedAdd(value + term, value + term, m);
    WrappedAdd(value + 2 * term, offset, m);
  }

  /** The sum of an offset and what an index adds, doubled or not, is not the offset. */
  lemma SumMoves(address: BaseIndex)
    requires address.offset != 0
    ensures var value := address.offset % 0x1_0000_0000_0000_0000;
            var sum := (value + IndexTerm(address, value)) % 0x1_0000_0000_0000_0000;
            sum != value && Address(sum, sum) != value && Address(value, value) != value
  {
    var value := address.offset % 0x1_0000_0000_0000_0000;
    var term := IndexTerm(address, value);
    DoubledDiffers(address.offset);
    TermOfOffset(address);
    TermMoves(value, term);
    TermMoves(value, address.offset + 2 * term);
    SumTwice(address.offset, term);
  }

  /** Where the access should be, and the sum in the scratch register, when that register holds `Telling` and
      the others 0. */
  lemma ToldApart(address: BaseIndex, s: State)
    requires s.regs == map[IP1 := Telling(address)] && (address.base == IP1 || address.index == IP1)
    ensures var u := SummedScratch(s, address);
            EffectiveAddress(s, address) != Address(u.X(address.base), u.X(IP1))
  {
    NoIndex(address);
    if address.offset == 0 {
      NothingAdded(address, s);
    } else {
      OnlyOffset(address, s);
      SumMoves(address);
    }
  }

  lemma OnlyOffset(address: BaseIndex, s: State)
    requires s.regs == map[IP1 := 0]
    ensures var value := address.offset % 0x1_0000_0000_0000_0000;
            var sum := if address.index == IP1 then (value + IndexTerm(address, value)) % 0x1_0000_0000_0000_0000
                       else value;
            var u := SummedScratch(s, address);
            && EffectiveAddress(s, address) == value && u.X(IP1) == sum
            && u.X(address.base) == (if address.base == IP1 then sum else 0)
            && Address(0, sum) == sum
  {
    var value := address.offset % 0x1_0000_0000_0000_0000;
    NoIndex(address);
    EffectiveSum(s, address, 0, 0);
    Modular.Wrap(value, 0x1_0000_0000_0000_0000);
    Modular.Wrap((value + IndexTerm(address, value)) % 0x1_0000_0000_0000_0000, 0x1_0000_0000_0000_0000);
  }

  lemma NothingAdded(address: BaseIndex, s: State)
    requires address.offset == 0 && s.regs == map[IP1 := 1] && (address.base == IP1 || address.index == IP1)
    ensures SummedScratch(s, address).X(IP1) == 0 && 0 < EffectiveAddress(s, address) < 10
    ensures Address(SummedScratch(s, address).X(address.base), 0) == 0
  {
    NoIndex(address);
    var term := IndexTerm(address, s.X(address.index));
    Modular.Wrap(s.X(address.base) + term, 0x1_0000_0000_0000_0000);
  }

  lemma SameRegisters(s: State, t: State, address: BaseIndex)
    requires s.regs == t.regs
    ensures EffectiveAddress(s, address) == EffectiveAddress(t, address)
  {
  }

  lemma SummedOperandLost(size: MemOpSize, mem: MemOp, rt: RegisterID, address: BaseIndex)
    requires !FoldsIndex(size, address) && (address.base == IP1 || address.index == IP1) && (mem == Load ==> rt != ZR)
    ensures !AccessesIndexed(size, mem, rt, address)
  {
    var x := Telling(address);
    var right := EffectiveAddress(Witness(mem, x, 0), address);
    var s := Witness(mem, x, right);
    var u, scratch := SummedScratch(s, address), IndexScratch(s, size, address);
    var wrong := Address(u.X(address.base), u.X(IP1));
    SameRegisters(Witness(mem, x, 0), s, address);
    SummedRun(s, size, mem, rt, address);
    ToldApart(address, s);
    AddressShows(s, u, scratch, size, mem, rt, right, wrong, x);
    assert !IndexedDone(s, ExecAll(s, LoadStoreBaseIndex(size, mem, rt, address)), size, mem, rt, address);
  }

  lemma OffsetOnly(s: State, address: BaseIndex)
    requires s.X(address.base) == 0 && s.X(address.index) == 0 && address.base != IP1 && address.index != IP1
    ensures var value := address.offset % 0x1_0000_0000_0000_0000;
            var u := SummedScratch(s, address);
            u.X(IP1) == value && Address(u.X(address.base), value) == value && EffectiveAddress(s, address) == value
  {
    NoIndex(address);
    Modular.Wrap(address.offset % 0x1_0000_0000_0000_0000, 0x1_0000_0000_0000_0000);
  }

  lemma SummedValueLost(size: MemOpSize, address: BaseIndex)
    requires !FoldsIndex(size, address) && address.base != IP1 && address.index != IP1
    ensures !AccessesIndexed(size, Store, IP1, address)
  {
    var value := address.offset % 0x1_0000_0000_0000_0000;
    var s := Witness(Store, OtherValue(size, value), 0);
    var u, scratch := SummedScratch(s, address), IndexScratch(s, size, address);
    SummedRun(s, size, Store, IP1, address);
    OffsetOnly(s, address);
    OtherDiffers(size, value);
    ValueShows(s, u, scratch, size, IP1, value);
    assert !IndexedDone(s, ExecAll(s, LoadStoreBaseIndex(size, Store, IP1, address)), size, Store, IP1, address);
  }

  // ---- The exact condition ----

  /** The operands that the scratch register may hold: the base of a folded access, and a stored value that is
      that base when the offset is a multiple of the size stored. */
  predicate OperandsSurvive(size: MemOpSize, mem: MemOp, rt: RegisterID, address: BaseIndex) {
    if FoldsIndex(size, address) then
      address.offset == 0 ||
      (address.index != IP1 &&
       (mem == Store && rt == IP1 ==> address.base == IP1 && address.offset % Pow256(Bytes(size)) == 0))
    else address.base != IP1 && address.index != IP1 && (mem == Store ==> rt != IP1)
  }

  lemma SurvivorsAccess(s: State, size: MemOpSize, mem: MemOp, rt: RegisterID, address: BaseIndex)
    requires OperandsSurvive(size, mem, rt, address)
    ensures IndexedDone(s, ExecAll(s, LoadStoreBaseIndex(size, mem, rt, address)), size, mem, rt, address)
  {
    if BaseIndexPrecondition(size, mem, rt, address) {
      LoadStoreBaseIndexMeaning(s, size, mem, rt, address);
    } else {
      StoredBaseSurvives(s, size, address);
    }
  }

  lemma OperandLost(size: MemOpSize, mem: MemOp, rt: RegisterID, address: BaseIndex)
    requires !OperandsSurvive(size, mem, rt, address) && (mem == Load ==> rt != ZR)
    ensures !AccessesIndexed(size, mem, rt, address)
  {
    if !FoldsIndex(size, address) {
      if address.base == IP1 || address.index == IP1 {
        SummedOperandLost(size, mem, rt, address);
      } else {
        SummedValueLost(size, address);
      }
    } else if address.index == IP1 {
      FoldedIndexLost(size, mem, rt, address);
    } else if address.base == IP1 {
      FoldedBaseValueLost(size, address);
    } else {
      FoldedValueLost(size, address);
    }
  }

  /** The access is right from every state exactly when its operands survive the scratch register. */
  lemma IndexedExact(size: MemOpSize, mem: MemOp, rt: RegisterID, address: BaseIndex)
    requires mem == Load ==> rt != ZR
    ensures AccessesIndexed(size, mem, rt, address) <==> OperandsSurvive(size, mem, rt, address)
  {
    if OperandsSurvive(size, mem, rt, address) {
      forall s: State
        ensures IndexedDone(s, ExecAll(s, LoadStoreBaseIndex(size, mem, rt, address)), size, mem, rt, address)
      {
        SurvivorsAccess(s, size, mem, rt, address);
      }
    } else {
      OperandLost(size, mem, rt, address);
    }
  }
}
