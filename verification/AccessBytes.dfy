/** Which bytes a load or store moves, with every size, scale and extension written out. */
module AccessBytes {
  import opened Powers
  import Words
  import Encoder
  import opened Instructions
  import opened Machine
  import opened Immediates
  import opened MoveImmediate
  import opened MemoryAccess
  import Modular

  /** How many bytes an access of the size moves. */
  function ByteCount(size: MemOpSize): nat {
    if size == Size8 then 1 else if size == Size16 then 2 else if size == Size32 then 4 else 8
  }

  /** The size an instruction moves is a power of two, and its exponent is the size field of its word. */
  lemma SizesAgree(size: MemOpSize)
    ensures Bytes(size) == ByteCount(size) == Pow2(Log2(size)) == Pow2(Words.Unsigned(Encoder.SizeField(size), 2))
  {
    Pow2Values();
    assert Words.Unsigned(0, 1) == 0 && Words.Unsigned(1, 1) == 1;
    assert Words.Unsigned(0, 2) == 0 && Words.Unsigned(1, 2) == 1;
    assert Words.Unsigned(2, 2) == 2 && Words.Unsigned(3, 2) == 3;
  }

  /** The little-endian number in `n` bytes from `at` on, modulo 2^64. */
  ghost function LittleEndian(s: State, at: int, n: nat): nat
    decreases n
  {
    if n == 0 then 0 else s.Byte(at % 0x1_0000_0000_0000_0000) + 256 * LittleEndian(s, at + 1, n - 1)
  }

  /** Byte `i` of a value, lowest first. */
  ghost function ByteOf(value: nat, i: nat): U8 {
    if i == 0 then value % 256 else ByteOf(value / 256, i - 1)
  }

  lemma NextAddress(at: int)
    ensures Address(at % 0x1_0000_0000_0000_0000, 1) == (at + 1) % 0x1_0000_0000_0000_0000
  {
    AddressSum(0, at, 1);
  }

  lemma {:induction false} ReadIsLittleEndian(s: State, at: int, n: nat)
    ensures ReadBytes(s, at % 0x1_0000_0000_0000_0000, n) == LittleEndian(s, at, n)
    decreases n
  {
    if n > 0 {
      NextAddress(at);
      ReadIsLittleEndian(s, at + 1, n - 1);
    }
  }

  function Distance(a: U64, at: int): U64 {
    (a - at) % 0x1_0000_0000_0000_0000
  }

  lemma DistanceSteps(a: U64, at: int)
    ensures Distance(a, at) == 0 <==> a == at % 0x1_0000_0000_0000_0000
    ensures Distance(a, at + 1) == if Distance(a, at) == 0 then 0xffff_ffff_ffff_ffff else Distance(a, at) - 1
  {
    var m := 0x1_0000_0000_0000_0000;
    var q, d := (a - at) / m, (a - at) % m;
    assert a - at == q * m + d;
    if d > 0 {
      Modular.WrapOnce(a - at - 1, q, m);
      if a == at % m {
        Modular.WrapOnce(a - at, -(at / m), m);
      }
    } else {
      Modular.WrapOnce(a - at - 1, q - 1, m);
      Modular.WrapOnce(at, -q, m);
    }
  }

  /** A store writes its bytes in place and no others. */
  lemma {:induction false} WrittenBytes(s: State, at: int, n: nat, value: nat, a: U64)
    requires n <= 8
    ensures s.(memory := WriteBytes(s.memory, at % 0x1_0000_0000_0000_0000, n, value)).Byte(a) ==
      if Distance(a, at) < n then ByteOf(value, Distance(a, at)) else s.Byte(a)
    decreases n
  {
    if n > 0 {
      var first := s.(memory := s.memory[at % 0x1_0000_0000_0000_0000 := value % 256]);
      NextAddress(at);
      DistanceSteps(a, at);
      WrittenBytes(first, at + 1, n - 1, value / 256, a);
    }
  }

  /** From `s` to `t`, with the registers of `u` but for a loaded one: the `n` bytes from `at` on, modulo 2^64, are
      loaded into or stored from `rt`, lowest first, and no other byte changes. */
  ghost predicate Moves(s: State, t: State, u: State, n: nat, mem: MemOp, rt: RegisterID, at: int) {
    if mem == Load then t == u.SetX(rt, LittleEndian(s, at, n) % 0x1_0000_0000_0000_0000)
    else
      && t.regs == u.regs && t.flags == u.flags
      && forall a: U64 :: t.Byte(a) == if Distance(a, at) < n then ByteOf(s.X(rt), Distance(a, at)) else s.Byte(a)
  }

  /** A state that is the access at the address modulo 2^64 has moved the bytes. */
  lemma MovedAt(s: State, t: State, u: State, size: MemOpSize, mem: MemOp, rt: RegisterID, address: U64, at: int)
    requires u.memory == s.memory && address == at % 0x1_0000_0000_0000_0000
    requires t == Accessed(s, u, size, mem, rt, address)
    ensures Moves(s, t, u, ByteCount(size), mem, rt, at)
  {
    AccessedMoves(s, u, size, mem, rt, at);
  }

  lemma AccessedMoves(s: State, u: State, size: MemOpSize, mem: MemOp, rt: RegisterID, at: int)
    requires u.memory == s.memory
    ensures Moves(s, Accessed(s, u, size, mem, rt, at % 0x1_0000_0000_0000_0000), u, ByteCount(size), mem, rt, at)
  {
    SizesAgree(size);
    ReadIsLittleEndian(s, at, ByteCount(size));
    forall a: U64 {
      WrittenBytes(s, at, ByteCount(size), s.X(rt), a);
    }
  }

  // ---- Base and offset ----

  /** An access takes one instruction exactly for -256..255 and for the multiples of its size up to 4095 times it; then,
      and through the scratch register otherwise, it moves the bytes at the base plus the offset. */
  lemma AddressBytes(s: State, size: MemOpSize, mem: MemOp, rt: RegisterID, base: RegisterID, offset: I32)
    requires UsesScratch(size, offset) ==> base != IP1 && (mem == Store ==> rt != IP1)
    ensures var n := ByteCount(size);
            var program := LoadStoreAddress(size, mem, rt, base, offset);
            var short := -256 <= offset < 256 || (0 <= offset <= 4095 * n && offset % n == 0);
            var u := if short then s else s.SetX(IP1, offset % 0x1_0000_0000_0000_0000);
            (|program| == 1 <==> short) && Moves(s, ExecAll(s, program), u, n, mem, rt, s.X(base) + offset)
  {
    var u := if UsesScratch(size, offset) then s.SetX(IP1, offset % 0x1_0000_0000_0000_0000) else s;
    var at := s.X(base) + offset;
    var t := ExecAll(s, LoadStoreAddress(size, mem, rt, base, offset));
    AddressLength(size, mem, rt, base, offset);
    LoadStoreAddressMeaning(s, size, mem, rt, base, offset);
    MovedAt(s, t, u, size, mem, rt, Address(s.X(base), offset), at);
  }

  lemma AddressLength(size: MemOpSize, mem: MemOp, rt: RegisterID, base: RegisterID, offset: I32)
    ensures var n := ByteCount(size);
            var short := -256 <= offset < 256 || (0 <= offset <= 4095 * n && offset % n == 0);
            (UsesScratch(size, offset) <==> !short) && (|LoadStoreAddress(size, mem, rt, base, offset)| == 1 <==> short)
  {
    SignedImm9Range(offset);
    ScaledUImm12Rebuilds(size, offset);
    MoveLength(D64, IP1, offset % 0x1_0000_0000_0000_0000);
  }

  // ---- Base and index ----

  /** What each scale multiplies an index by. */
  function Factor(scale: Scale): nat {
    match scale case TimesOne => 1 case TimesTwo => 2 case TimesFour => 4 case TimesEight => 8
  }

  /** The index register as an access reads it: zero-extended or sign-extended from 32 bits, or whole. */
  function IndexValue(extend: IndexExtend, x: U64): int {
    var low := x % 0x1_0000_0000;
    match extend
    case ZExt32 => low
    case SExt32 => if low >= 0x8000_0000 then low - 0x1_0000_0000 else low
    case NoExtend => x
  }

  lemma IndexOffsetIs(s: State, address: BaseIndex)
    ensures IndexOffset(s, address) == Factor(address.scale) * IndexValue(address.extend, s.X(address.index))
  {
    var e := Extend(IndexExtendType(address.extend), s.X(address.index));
    ScaleByPower(e, ScaleLog2(address.scale));
    Pow2Values();
    assert Pow2(0) == 1 && Pow2(1) == 2;
    assert e == IndexValue(address.extend, s.X(address.index));
  }

  /** The scale is that of the access, or none, and the offset folds into an addition. */
  predicate Folds(size: MemOpSize, scale: Scale, offset: I32) {
    && (scale == TimesOne || (size == Size16 && scale == TimesTwo) || (size == Size32 && scale == TimesFour)
        || (size == Size64 && scale == TimesEight))
    && (-0x1000 < offset < 0x1000 || (offset % 0x1000 == 0 && -0x100_0000 < offset < 0x100_0000))
  }

  /** One instruction without an offset, two when it folds, at least three otherwise. */
  lemma IndexedLength(size: MemOpSize, mem: MemOp, rt: RegisterID, address: BaseIndex)
    ensures var program := LoadStoreBaseIndex(size, mem, rt, address);
            var folds := Folds(size, address.scale, address.offset);
            && (|program| == 1 <==> folds && address.offset == 0) && (|program| == 2 <==> folds && address.offset != 0)
            && (folds <==> FoldsIndex(size, address))
  {
    ExtractionExact(address.offset);
    MoveLength(D64, IP1, address.offset % 0x1_0000_0000_0000_0000);
  }

  /** Every form moves the bytes at the base plus the offset plus 1, 2, 4 or 8 times the extended index. */
  lemma IndexedBytes(s: State, size: MemOpSize, mem: MemOp, rt: RegisterID, address: BaseIndex)
    requires BaseIndexPrecondition(size, mem, rt, address)
    ensures var BaseIndex(base, index, scale, offset, extend) := address;
            var term := Factor(scale) * IndexValue(extend, s.X(index));
            var u := if !Folds(size, scale, offset) then s.SetX(IP1, (offset + term) % 0x1_0000_0000_0000_0000)
                     else if offset == 0 then s
                     else s.SetX(IP1, (s.X(base) + offset) % 0x1_0000_0000_0000_0000);
            Moves(s, ExecAll(s, LoadStoreBaseIndex(size, mem, rt, address)), u, ByteCount(size), mem, rt,
                  s.X(base) + offset + term)
  {
    var term := Factor(address.scale) * IndexValue(address.extend, s.X(address.index));
    var u := IndexScratch(s, size, address);
    var at := s.X(address.base) + address.offset + term;
    IndexedAddress(s, address, term);
    IndexedScratch(s, size, address, term);
    IndexedMoves(s, size, mem, rt, address, u, EffectiveAddress(s, address), at);
  }

  lemma IndexedMoves(s: State, size: MemOpSize, mem: MemOp, rt: RegisterID, address: BaseIndex, u: State,
                     effective: U64, at: int)
    requires BaseIndexPrecondition(size, mem, rt, address) && u == IndexScratch(s, size, address)
    requires effective == EffectiveAddress(s, address) == at % 0x1_0000_0000_0000_0000
    ensures Moves(s, ExecAll(s, LoadStoreBaseIndex(size, mem, rt, address)), u, ByteCount(size), mem, rt, at)
  {
    LoadStoreBaseIndexMeaning(s, size, mem, rt, address);
    MovedAt(s, ExecAll(s, LoadStoreBaseIndex(size, mem, rt, address)), u, size, mem, rt, effective, at);
  }

  lemma IndexedAddress(s: State, address: BaseIndex, term: int)
    requires term == Factor(address.scale) * IndexValue(address.extend, s.X(address.index))
    ensures EffectiveAddress(s, address) == (s.X(address.base) + address.offset + term) % 0x1_0000_0000_0000_0000
  {
    IndexOffsetIs(s, address);
  }

  lemma IndexedScratch(s: State, size: MemOpSize, address: BaseIndex, term: int)
    requires term == Factor(address.scale) * IndexValue(address.extend, s.X(address.index))
    ensures IndexScratch(s, size, address) ==
      if !Folds(size, address.scale, address.offset) then
        s.SetX(IP1, (address.offset + term) % 0x1_0000_0000_0000_0000)
      else if address.offset == 0 then s
      else s.SetX(IP1, (s.X(address.base) + address.offset) % 0x1_0000_0000_0000_0000)
  {
    IndexOffsetIs(s, address);
    IndexedLength(size, Load, ZR, address);
  }
}
