/** Loads and stores over a base with an offset, and over a base with an index. */
module MemoryAccess {
  import opened Wrappers
  import opened Instructions
  import opened Machine
  import Modular
  import opened Immediates
  import opened MoveImmediate
  import opened Arithmetic

  datatype Scale = TimesOne | TimesTwo | TimesFour | TimesEight

  datatype IndexExtend = ZExt32 | SExt32 | NoExtend

  datatype BaseIndex = BaseIndex(base: RegisterID, index: RegisterID, scale: Scale, offset: I32, extend: IndexExtend)

  function ScaleLog2(scale: Scale): (n: nat)
    ensures n < 4
  {
    match scale case TimesOne => 0 case TimesTwo => 1 case TimesFour => 2 case TimesEight => 3
  }

  function IndexExtendType(extend: IndexExtend): ExtendType {
    match extend case ZExt32 => Uxtw case SExt32 => Sxtw case NoExtend => Uxtx
  }

  predicate ScaleIsValidForSize(size: MemOpSize, scale: Scale) {
    scale == TimesOne || ScaleLog2(scale) == Log2(size)
  }

  // ---- Lowerings ----

  function OffsetInScratch(offset: I32): seq<Instr> {
    MoveProgram(D64, IP1, offset % 0x1_0000_0000_0000_0000)
  }

  function LoadStoreAddress(size: MemOpSize, mem: MemOp, rt: RegisterID, base: RegisterID, offset: I32): seq<Instr> {
    if IsValidSignedImm9(offset) then [LoadStoreUnscaled(size, mem, rt, base, offset)]
    else if IsValidScaledUImm12(size, offset) then [LoadStoreUnsigned(size, mem, rt, base, offset / Bytes(size))]
    else OffsetInScratch(offset) + [LoadStoreRegister(size, mem, rt, base, IP1, Uxtx, false)]
  }

  /** The base with the offset folded in: the instructions that do it and the register that holds it. */
  datatype FoldedBase = FoldedBase(program: seq<Instr>, base: RegisterID)

  function TryFoldBaseAndOffset(address: BaseIndex): Option<FoldedBase> {
    if address.offset == 0 then Some(FoldedBase([], address.base))
    else match TryExtractShiftedImm32(address.offset)
      case Some(parts) => Some(FoldedBase(FoldedProgram(D64, Add, parts, address.base, IP1), IP1))
      case None => None
  }

  function LoadStoreBaseIndex(size: MemOpSize, mem: MemOp, rt: RegisterID, address: BaseIndex): seq<Instr> {
    var extend := IndexExtendType(address.extend);
    var folded := TryFoldBaseAndOffset(address);
    if ScaleIsValidForSize(size, address.scale) && folded.Some? then
      folded.value.program
      + [LoadStoreRegister(size, mem, rt, folded.value.base, address.index, extend, address.scale != TimesOne)]
    else
      OffsetInScratch(address.offset)
      + [AddSubExtended(D64, Add, false, IP1, IP1, address.index, extend, ScaleLog2(address.scale)),
         LoadStoreRegister(size, mem, rt, address.base, IP1, Uxtx, false)]
  }

  // ---- Reading and writing ----

  lemma {:induction false} ReadSameMemory(s: State, t: State, at: U64, n: nat)
    requires s.memory == t.memory
    ensures ReadBytes(s, at, n) == ReadBytes(t, at, n)
    decreases n
  {
    if n > 0 {
      ReadSameMemory(s, t, Address(at, 1), n - 1);
    }
  }

  /** `s` with the access at `at` done, and the scratch register as in `t`. */
  function Accessed(s: State, t: State, size: MemOpSize, mem: MemOp, rt: RegisterID, at: U64): State {
    if mem == Load then t.SetX(rt, ReadBytes(s, at, Bytes(size)) % 0x1_0000_0000_0000_0000)
    else t.(memory := WriteBytes(s.memory, at, Bytes(size), s.X(rt)))
  }

  lemma AccessThroughScratch(s: State, value: U64, size: MemOpSize, mem: MemOp, rt: RegisterID, at: U64)
    requires mem == Store ==> rt != IP1
    ensures Access(s.SetX(IP1, value), size, mem, rt, at) == Accessed(s, s.SetX(IP1, value), size, mem, rt, at)
  {
    ReadSameMemory(s, s.SetX(IP1, value), at, Bytes(size));
  }

  /** Offsets add up modulo 2^64, in whatever order they are applied. */
  lemma AddressSum(base: U64, a: int, b: int)
    ensures Address(Address(base, a), b) == Address(base, a + b)
    ensures Address(base, a % 0x1_0000_0000_0000_0000) == Address(base, a)
  {
    var m := 0x1_0000_0000_0000_0000;
    WrappedAdd(b, base + a, m);
    WrappedAdd(base, a, m);
  }

  lemma ExecRegisterOffset(s: State, size: MemOpSize, mem: MemOp, rt: RegisterID, base: RegisterID, index: RegisterID)
    ensures Exec(s, LoadStoreRegister(size, mem, rt, base, index, Uxtx, false)) ==
      Access(s, size, mem, rt, Address(s.X(base), s.X(index)))
  {
  }

  /** An access at the base plus what the scratch register holds. */
  lemma ScratchAccess(s: State, size: MemOpSize, mem: MemOp, rt: RegisterID, base: RegisterID, offset: int)
    requires base != IP1 && (mem == Store ==> rt != IP1)
    ensures Exec(s.SetX(IP1, offset % 0x1_0000_0000_0000_0000),
                 LoadStoreRegister(size, mem, rt, base, IP1, Uxtx, false)) ==
      Accessed(s, s.SetX(IP1, offset % 0x1_0000_0000_0000_0000), size, mem, rt, Address(s.X(base), offset))
  {
    var value := offset % 0x1_0000_0000_0000_0000;
    ExecRegisterOffset(s.SetX(IP1, value), size, mem, rt, base, IP1);
    SetTwice(s, IP1, value, 0);
    AddressSum(s.X(base), offset, 0);
    AccessThroughScratch(s, value, size, mem, rt, Address(s.X(base), offset));
  }

  // ---- Base and offset ----

  predicate UsesScratch(size: MemOpSize, offset: I32) {
    !IsValidSignedImm9(offset) && !IsValidScaledUImm12(size, offset)
  }

  lemma AddressThroughScratch(s: State, size: MemOpSize, mem: MemOp, rt: RegisterID, base: RegisterID, offset: I32)
    requires base != IP1 && (mem == Store ==> rt != IP1)
    ensures ExecAll(s, OffsetInScratch(offset) + [LoadStoreRegister(size, mem, rt, base, IP1, Uxtx, false)]) ==
      Accessed(s, s.SetX(IP1, offset % 0x1_0000_0000_0000_0000), size, mem, rt, Address(s.X(base), offset))
  {
    var value := offset % 0x1_0000_0000_0000_0000;
    var last := LoadStoreRegister(size, mem, rt, base, IP1, Uxtx, false);
    MoveSets(s, D64, IP1, value);
    ExecAllAppend(s, OffsetInScratch(offset), [last]);
    ExecAllOne(s.SetX(IP1, value), last);
    ScratchAccess(s, size, mem, rt, base, offset);
  }

  /** Every form reads or writes base + sign-extended offset, and changes nothing else but the scratch
      register on the path that needs it. */
  lemma LoadStoreAddressMeaning(s: State, size: MemOpSize, mem: MemOp, rt: RegisterID, base: RegisterID, offset: I32)
    requires UsesScratch(size, offset) ==> base != IP1 && (mem == Store ==> rt != IP1)
    ensures ExecAll(s, LoadStoreAddress(size, mem, rt, base, offset)) ==
      Accessed(s, if UsesScratch(size, offset) then s.SetX(IP1, offset % 0x1_0000_0000_0000_0000) else s,
               size, mem, rt, Address(s.X(base), offset))
  {
    if IsValidSignedImm9(offset) {
      ExecAllOne(s, LoadStoreUnscaled(size, mem, rt, base, offset));
    } else if IsValidScaledUImm12(size, offset) {
      ScaledUImm12Rebuilds(size, offset);
      ExecAllOne(s, LoadStoreUnsigned(size, mem, rt, base, offset / Bytes(size)));
    } else {
      AddressThroughScratch(s, size, mem, rt, base, offset);
    }
  }

  // ---- Base and index ----

  /** The index as the access adds it. */
  function IndexOffset(s: State, address: BaseIndex): int {
    ScaleBy(Extend(IndexExtendType(address.extend), s.X(address.index)), ScaleLog2(address.scale))
  }

  function EffectiveAddress(s: State, address: BaseIndex): U64 {
    Address(s.X(address.base), address.offset + IndexOffset(s, address))
  }

  predicate FoldsIndex(size: MemOpSize, address: BaseIndex) {
    ScaleIsValidForSize(size, address.scale) && (address.offset == 0 || Foldable(address.offset))
  }

  /** The scratch register after the access, on each of the three paths. */
  function IndexScratch(s: State, size: MemOpSize, address: BaseIndex): State {
    if !FoldsIndex(size, address) then
      s.SetX(IP1, (address.offset + IndexOffset(s, address)) % 0x1_0000_0000_0000_0000)
    else if address.offset == 0 then s
    else s.SetX(IP1, Address(s.X(address.base), address.offset))
  }

  /** The registers each path relies on: the index and a stored value must survive the scratch
      register, and so must the base on the full path. */
  predicate BaseIndexPrecondition(size: MemOpSize, mem: MemOp, rt: RegisterID, address: BaseIndex) {
    if FoldsIndex(size, address) then
      address.offset != 0 ==> address.index != IP1 && (mem == Store ==> rt != IP1)
    else address.base != IP1 && address.index != IP1 && (mem == Store ==> rt != IP1)
  }

  lemma ExecIndexed(s: State, size: MemOpSize, mem: MemOp, rt: RegisterID, base: RegisterID, index: RegisterID,
                    option: ExtendType, scaled: bool, offset: int)
    requires offset == ScaleBy(Extend(option, s.X(index)), if scaled then Log2(size) else 0)
    ensures Exec(s, LoadStoreRegister(size, mem, rt, base, index, option, scaled)) ==
      Access(s, size, mem, rt, Address(s.X(base), offset))
  {
  }

  /** An access relative to the scratch register, which holds the base already moved by `a`. */
  lemma IndexedThroughScratch(s: State, size: MemOpSize, mem: MemOp, rt: RegisterID, base: U64, index: RegisterID,
                              option: ExtendType, scaled: bool, a: int, b: int)
    requires index != IP1 && (mem == Store ==> rt != IP1)
    requires b == ScaleBy(Extend(option, s.X(index)), if scaled then Log2(size) else 0)
    ensures Exec(s.SetX(IP1, Address(base, a)), LoadStoreRegister(size, mem, rt, IP1, index, option, scaled)) ==
      Accessed(s, s.SetX(IP1, Address(base, a)), size, mem, rt, Address(base, a + b))
  {
    var t := s.SetX(IP1, Address(base, a));
    SetTwice(s, IP1, Address(base, a), 0);
    assert t.X(index) == s.X(index);
    ExecIndexed(t, size, mem, rt, IP1, index, option, scaled, b);
    AddressSum(base, a, b);
    AccessThroughScratch(s, Address(base, a), size, mem, rt, Address(base, a + b));
  }

  lemma FoldedIndexRun(s: State, size: MemOpSize, mem: MemOp, rt: RegisterID, base: RegisterID, index: RegisterID,
                       option: ExtendType, scaled: bool, offset: I32, parts: ShiftedImmediate, indexOffset: int)
    requires Foldable(offset) && TryExtractShiftedImm32(offset) == Some(parts)
    requires index != IP1 && (mem == Store ==> rt != IP1)
    requires indexOffset == ScaleBy(Extend(option, s.X(index)), if scaled then Log2(size) else 0)
    ensures ExecAll(s, FoldedProgram(D64, Add, parts, base, IP1)
                       + [LoadStoreRegister(size, mem, rt, IP1, index, option, scaled)]) ==
      Accessed(s, s.SetX(IP1, Address(s.X(base), offset)), size, mem, rt, Address(s.X(base), offset + indexOffset))
  {
    var folded := FoldedProgram(D64, Add, parts, base, IP1);
    var last := LoadStoreRegister(size, mem, rt, IP1, index, option, scaled);
    FoldedMeaning(s, D64, Add, offset, base, IP1);
    WholeRegister(s, base);
    ExecAllAppend(s, folded, [last]);
    ExecAllOne(s.SetX(IP1, Address(s.X(base), offset)), last);
    IndexedThroughScratch(s, size, mem, rt, s.X(base), index, option, scaled, offset, indexOffset);
  }

  lemma FoldedIndexMeaning(s: State, size: MemOpSize, mem: MemOp, rt: RegisterID, address: BaseIndex)
    requires FoldsIndex(size, address) && address.offset != 0
    requires address.index != IP1 && (mem == Store ==> rt != IP1)
    ensures ExecAll(s, LoadStoreBaseIndex(size, mem, rt, address)) ==
      Accessed(s, IndexScratch(s, size, address), size, mem, rt, EffectiveAddress(s, address))
  {
    var BaseIndex(base, index, scale, offset, extend) := address;
    ExtractionExact(offset);
    FoldedIndexRun(s, size, mem, rt, base, index, IndexExtendType(extend), scale != TimesOne, offset,
                   TryExtractShiftedImm32(offset).value, IndexOffset(s, address));
  }

  lemma ExecAddIndex(s: State, index: RegisterID, option: ExtendType, amount: nat, a: int, b: int)
    requires index != IP1 && b == ScaleBy(Extend(option, s.X(index)), amount)
    ensures Exec(s.SetX(IP1, a % 0x1_0000_0000_0000_0000),
                 AddSubExtended(D64, Add, false, IP1, IP1, index, option, amount)) ==
      s.SetX(IP1, (a + b) % 0x1_0000_0000_0000_0000)
  {
    var m := 0x1_0000_0000_0000_0000;
    var t := s.SetX(IP1, a % m);
    SetTwice(s, IP1, a % m, (a + b) % m);
    assert t.X(index) == s.X(index) && t.Get(D64, IP1) == a % m;
    SumWraps(Add, a % m, b, m);
    WrappedAdd(b, a, m);
  }

  lemma OffsetAndIndex(s: State, index: RegisterID, option: ExtendType, amount: nat, offset: I32, scaled: int,
                       last: Instr)
    requires index != IP1 && scaled == ScaleBy(Extend(option, s.X(index)), amount)
    ensures ExecAll(s, OffsetInScratch(offset)
                       + [AddSubExtended(D64, Add, false, IP1, IP1, index, option, amount), last]) ==
      Exec(s.SetX(IP1, (offset + scaled) % 0x1_0000_0000_0000_0000), last)
  {
    var m := 0x1_0000_0000_0000_0000;
    var add := AddSubExtended(D64, Add, false, IP1, IP1, index, option, amount);
    MoveSets(s, D64, IP1, offset % m);
    ExecAllAppend(s, OffsetInScratch(offset), [add, last]);
    assert [add, last] == [add] + [last];
    ExecFirst(s.SetX(IP1, offset % m), add, [last]);
    ExecAddIndex(s, index, option, amount, offset, scaled);
    ExecAllOne(s.SetX(IP1, (offset + scaled) % m), last);
  }

  lemma FullIndexShape(size: MemOpSize, mem: MemOp, rt: RegisterID, address: BaseIndex)
    requires !FoldsIndex(size, address)
    ensures LoadStoreBaseIndex(size, mem, rt, address) ==
      OffsetInScratch(address.offset)
      + [AddSubExtended(D64, Add, false, IP1, IP1, address.index, IndexExtendType(address.extend),
                        ScaleLog2(address.scale)),
         LoadStoreRegister(size, mem, rt, address.base, IP1, Uxtx, false)]
  {
    ExtractionExact(address.offset);
  }

  lemma FullIndexMeaning(s: State, size: MemOpSize, mem: MemOp, rt: RegisterID, address: BaseIndex, indexOffset: int)
    requires !FoldsIndex(size, address) && indexOffset == IndexOffset(s, address)
    requires address.base != IP1 && address.index != IP1 && (mem == Store ==> rt != IP1)
    ensures ExecAll(s, LoadStoreBaseIndex(size, mem, rt, address)) ==
      Accessed(s, s.SetX(IP1, (address.offset + indexOffset) % 0x1_0000_0000_0000_0000), size, mem, rt,
               Address(s.X(address.base), address.offset + indexOffset))
  {
    var program := LoadStoreBaseIndex(size, mem, rt, address);
    FullIndexShape(size, mem, rt, address);
    FullIndexRun(s, program, size, mem, rt, address.base, address.index, IndexExtendType(address.extend),
                 ScaleLog2(address.scale), address.offset, indexOffset);
  }

  lemma FullIndexRun(s: State, program: seq<Instr>, size: MemOpSize, mem: MemOp, rt: RegisterID, base: RegisterID,
                     index: RegisterID, option: ExtendType, amount: nat, offset: I32, scaled: int)
    requires program == OffsetInScratch(offset) + [AddSubExtended(D64, Add, false, IP1, IP1, index, option, amount),
                                                   LoadStoreRegister(size, mem, rt, base, IP1, Uxtx, false)]
    requires base != IP1 && index != IP1 && (mem == Store ==> rt != IP1)
    requires scaled == ScaleBy(Extend(option, s.X(index)), amount)
    ensures ExecAll(s, program) ==
      Accessed(s, s.SetX(IP1, (offset + scaled) % 0x1_0000_0000_0000_0000), size, mem, rt,
               Address(s.X(base), offset + scaled))
  {
    OffsetAndIndex(s, index, option, amount, offset, scaled, LoadStoreRegister(size, mem, rt, base, IP1, Uxtx, false));
    ScratchAccess(s, size, mem, rt, base, offset + scaled);
  }

  lemma UnfoldedScratch(s: State, size: MemOpSize, address: BaseIndex, indexOffset: int)
    requires !FoldsIndex(size, address) && indexOffset == IndexOffset(s, address)
    ensures IndexScratch(s, size, address) ==
      s.SetX(IP1, (address.offset + indexOffset) % 0x1_0000_0000_0000_0000)
    ensures EffectiveAddress(s, address) == Address(s.X(address.base), address.offset + indexOffset)
  {
  }

  lemma UnfoldedIndexMeaning(s: State, size: MemOpSize, mem: MemOp, rt: RegisterID, address: BaseIndex)
    requires !FoldsIndex(size, address)
    requires address.base != IP1 && address.index != IP1 && (mem == Store ==> rt != IP1)
    ensures ExecAll(s, LoadStoreBaseIndex(size, mem, rt, address)) ==
      Accessed(s, IndexScratch(s, size, address), size, mem, rt, EffectiveAddress(s, address))
  {
    var offset := IndexOffset(s, address);
    var at := EffectiveAddress(s, address);
    var scratch := IndexScratch(s, size, address);
    UnfoldedScratch(s, size, address, offset);
    FullIndexMeaning(s, size, mem, rt, address, offset);
  }

  lemma PlainIndexMeaning(s: State, size: MemOpSize, mem: MemOp, rt: RegisterID, address: BaseIndex)
    requires ScaleIsValidForSize(size, address.scale) && address.offset == 0
    ensures ExecAll(s, LoadStoreBaseIndex(size, mem, rt, address)) ==
      Accessed(s, IndexScratch(s, size, address), size, mem, rt, EffectiveAddress(s, address))
  {
    var last := LoadStoreRegister(size, mem, rt, address.base, address.index, IndexExtendType(address.extend),
                                  address.scale != TimesOne);
    assert LoadStoreBaseIndex(size, mem, rt, address) == [last];
    ExecAllOne(s, last);
    ExecIndexed(s, size, mem, rt, address.base, address.index, IndexExtendType(address.extend),
                address.scale != TimesOne, IndexOffset(s, address));
  }

  /** Every form reads or writes base + sign-extended offset + (extended index << scale) modulo 2^64,
      and changes nothing else but the scratch register. */
  lemma LoadStoreBaseIndexMeaning(s: State, size: MemOpSize, mem: MemOp, rt: RegisterID, address: BaseIndex)
    requires BaseIndexPrecondition(size, mem, rt, address)
    ensures ExecAll(s, LoadStoreBaseIndex(size, mem, rt, address)) ==
      Accessed(s, IndexScratch(s, size, address), size, mem, rt, EffectiveAddress(s, address))
  {
    if !FoldsIndex(size, address) {
      UnfoldedIndexMeaning(s, size, mem, rt, address);
    } else if address.offset != 0 {
      FoldedIndexMeaning(s, size, mem, rt, address);
    } else {
      PlainIndexMeaning(s, size, mem, rt, address);
    }
  }

  // ---- Stored values are loaded back ----

  function Pow256(n: nat): (p: nat)
    ensures p > 0
  {
    if n == 0 then 1 else 256 * Pow256(n - 1)
  }

  /** `other` is not one of the `n` bytes from `at` on. */
  ghost predicate Outside(other: U64, at: U64, n: nat) {
    forall i :: 0 <= i < n ==> other != Address(at, i)
  }

  lemma OutsideRest(other: U64, at: U64, n: nat)
    requires n > 0 && Outside(other, at, n)
    ensures other != at && Outside(other, Address(at, 1), n - 1)
  {
    AddressSum(at, 0, 0);
    forall i | 0 <= i < n - 1
      ensures other != Address(Address(at, 1), i)
    {
      AddressSum(at, 1, i);
      assert other != Address(at, i + 1);
    }
    assert Address(at, 0) == at;
  }

  /** A store leaves every byte outside its range alone. */
  lemma {:induction false} WriteElsewhere(memory: map<U64, U8>, at: U64, n: nat, value: nat, other: U64)
    requires Outside(other, at, n)
    ensures var after := WriteBytes(memory, at, n, value);
            (other in after <==> other in memory) && (other in memory ==> after[other] == memory[other])
    decreases n
  {
    if n > 0 {
      OutsideRest(other, at, n);
      WriteElsewhere(memory[at := value % 256], Address(at, 1), n - 1, value / 256, other);
    }
  }

  lemma NearbyDiffer(at: U64, i: nat)
    requires 0 < i < 8
    ensures Address(at, i) != at
  {
    Modular.Wrap(at + i, 0x1_0000_0000_0000_0000);
  }

  lemma FirstOutsideRest(at: U64, n: nat)
    requires 0 < n <= 8
    ensures Outside(at, Address(at, 1), n - 1)
  {
    forall i | 0 <= i < n - 1
      ensures at != Address(Address(at, 1), i)
    {
      AddressSum(at, 1, i);
      NearbyDiffer(at, i + 1);
    }
  }

  /** A load of the size just stored gives the value back, cut to that size. */
  lemma {:induction false} StoreThenLoad(s: State, at: U64, n: nat, value: nat)
    requires n <= 8
    ensures ReadBytes(s.(memory := WriteBytes(s.memory, at, n, value)), at, n) == value % Pow256(n)
    decreases n
  {
    if n > 0 {
      var first := s.(memory := s.memory[at := value % 256]);
      var after := WriteBytes(first.memory, Address(at, 1), n - 1, value / 256);
      StoreThenLoad(first, Address(at, 1), n - 1, value / 256);
      ReadSameMemory(first.(memory := after), s.(memory := after), Address(at, 1), n - 1);
      FirstOutsideRest(at, n);
      WriteElsewhere(first.memory, Address(at, 1), n - 1, value / 256, at);
      LowByte(value, Pow256(n - 1));
    }
  }

  lemma LowByte(value: nat, p: nat)
    requires p > 0
    ensures value % 256 + 256 * (value / 256 % p) == value % (256 * p)
  {
    var q := value / 256;
    assert q == q / p * p + q % p;
    assert value == q / p * (256 * p) + (value % 256 + 256 * (q % p));
    Modular.WrapOnce(value, q / p, 256 * p);
  }
}
