/** Words that the A64 instruction set gives for known instructions (DDI 0487, section C6.2). */
module KnownWords {
  import opened Words
  import opened Instructions
  import opened Encoder
  import opened CodeBuffer

  // ---- Small numbers as words ----

  /** Bit for bit, over the low `k` bits. */
  predicate SameBits(n: nat, w: Word, k: nat)
    decreases k
  {
    (n == 0 && w == 0) || (k > 0 && (n % 2 == 1) == (w & 1 == 1) && SameBits(n / 2, w >> 1, k - 1))
  }

  lemma OddOrEven(w: Word)
    ensures w == ShiftIn(w >> 1, w & 1 == 1)
  {
  }

  lemma {:induction false} BitsAre(n: nat, w: Word, k: nat)
    requires SameBits(n, w, k)
    ensures Bits(n, k) == w
    decreases k
  {
    if k > 0 {
      if n == 0 && w == 0 {
        BitsAre(0, 0, k - 1);
      } else {
        BitsAre(n / 2, w >> 1, k - 1);
        OddOrEven(w);
      }
    }
  }

  lemma SmallNumbers()
    ensures ToWord(0) == 0 && ToWord(1) == 1 && ToWord(2) == 2 && ToWord(4) == 4
    ensures ToWord(29) == 29 && ToWord(30) == 30 && ToWord(31) == 31 && ToWord(63) == 63
  {
    assert SameBits(1, 1, 32);
    assert SameBits(1, 1, 31) && SameBits(2, 2, 32);
    assert SameBits(1, 1, 30) && SameBits(2, 2, 31) && SameBits(4, 4, 32);
    assert SameBits(1, 1, 28) && SameBits(3, 3, 29) && SameBits(7, 7, 30);
    assert SameBits(14, 14, 31) && SameBits(29, 29, 32);
    assert SameBits(15, 15, 31) && SameBits(30, 30, 32) && SameBits(31, 31, 32);
    assert SameBits(1, 1, 27) && SameBits(3, 3, 28) && SameBits(7, 7, 29) && SameBits(15, 15, 30);
    assert SameBits(31, 31, 31) && SameBits(63, 63, 32);
    forall n: nat, w: Word | SameBits(n, w, 32) ensures ToWord(n) == w {
      BitsAre(n, w, 32);
    }
  }

  // ---- Instructions as words ----

  lemma ImmediateSumWords(x0: RegisterID, x1: RegisterID, four: nat)
    requires x0 == 0 && x1 == 1 && four == 4
    ensures Encode(AddSubImmediate(D64, Add, false, x0, x1, four, false)) == 0x9100_1020
    ensures Encode(AddSubImmediate(D64, Sub, false, x0, x0, x1, false)) == 0xd100_0400
    ensures Encode(AddSubImmediate(D32, Add, false, x0, x1, x1, true)) == 0x1140_0420
    ensures Encode(AddSubImmediate(D32, Sub, true, ZR, x0, four, false)) == 0x7100_101f
    ensures Encode(AddSubImmediate(D64, Add, false, 29, SP, x0, false)) == 0x9100_03fd
  {
    SmallNumbers();
  }

  lemma SumWords(x0: RegisterID, x1: RegisterID, x2: RegisterID)
    requires x0 == 0 && x1 == 1 && x2 == 2
    ensures Encode(AddSubRegister(D64, Add, false, x0, x1, x2)) == 0x8b02_0020
    ensures Encode(AddSubRegister(D32, Sub, false, x0, x1, x2)) == 0x4b02_0020
    ensures Encode(AddSubRegister(D32, Sub, true, ZR, x0, x1)) == 0x6b01_001f
  {
    SmallNumbers();
  }

  /** Every way to extend the last operand of an addition. */
  lemma ExtendedSumWords(option: ExtendType, x0: RegisterID, x1: RegisterID, x2: RegisterID)
    requires x0 == 0 && x1 == 1 && x2 == 2
    ensures Encode(AddSubExtended(D64, Add, false, x0, x1, x2, option, x1)) ==
      match option
      case Uxtb => 0x8b22_0420
      case Uxth => 0x8b22_2420
      case Uxtw => 0x8b22_4420
      case Uxtx => 0x8b22_6420
      case Sxtb => 0x8b22_8420
      case Sxth => 0x8b22_a420
      case Sxtw => 0x8b22_c420
      case Sxtx => 0x8b22_e420
  {
    SmallNumbers();
  }

  lemma ExtendedComparisonWord(x0: RegisterID, no: nat)
    requires x0 == 0 && no == 0
    ensures Encode(AddSubExtended(D64, Sub, true, ZR, x0, x0, Sxtw, no)) == 0xeb20_c01f
  {
    SmallNumbers();
  }

  lemma LogicalWords(op: LogicalOp, x0: RegisterID, x1: RegisterID, x2: RegisterID)
    requires x0 == 0 && x1 == 1 && x2 == 2
    ensures Encode(LogicalRegister(D32, op, x0, x1, x2)) ==
      match op case And => 0x0a02_0020 case Orr => 0x2a02_0020 case Eor => 0x4a02_0020 case Ands => 0x6a02_0020
    ensures Encode(LogicalRegister(D64, And, x0, x1, x2)) == 0x8a02_0020
  {
    SmallNumbers();
  }

  lemma MoveWords(x0: RegisterID, one: nat, hw: nat)
    requires x0 == 0 && one == 1 && hw == 2
    ensures Encode(MoveWide(D64, MovZ, x0, one, x0)) == 0xd280_0020
    ensures Encode(MoveWide(D64, MovK, x0, one, hw)) == 0xf2c0_0020
    ensures Encode(MoveWide(D64, MovN, x0, x0, x0)) == 0x9280_0000
    ensures Encode(MoveWide(D32, MovZ, x0, one, x0)) == 0x5280_0020
  {
    SmallNumbers();
  }

  lemma ShiftWords(op: ShiftOp, x0: RegisterID, x1: RegisterID, x2: RegisterID)
    requires x0 == 0 && x1 == 1 && x2 == 2
    ensures Encode(ShiftRegister(D32, op, x0, x1, x2)) ==
      match op case Lslv => 0x1ac2_2020 case Lsrv => 0x1ac2_2420 case Asrv => 0x1ac2_2820
  {
    SmallNumbers();
  }

  lemma BitfieldWords(x0: RegisterID, x1: RegisterID, n30: nat, n31: nat)
    requires x0 == 0 && x1 == 1 && n30 == 30 && n31 == 31
    ensures Encode(Bitfield(D32, Ubfm, x0, x1, n31, n30)) == 0x531f_7820
    ensures Encode(Bitfield(D32, Ubfm, x0, x1, x1, n31)) == 0x5301_7c20
    ensures Encode(Bitfield(D32, Sbfm, x0, x1, x1, n31)) == 0x1301_7c20
  {
    SmallNumbers();
  }

  lemma WideBitfieldWord(x0: RegisterID, x1: RegisterID, n63: nat)
    requires x0 == 0 && x1 == 1 && n63 == 63
    ensures Encode(Bitfield(D64, Sbfm, x0, x1, x1, n63)) == 0x9341_fc20
  {
    SmallNumbers();
  }

  lemma ProductWords(op: MultiplyOp, x0: RegisterID, x1: RegisterID, x2: RegisterID)
    requires x0 == 0 && x1 == 1 && x2 == 2
    ensures Encode(Multiply(D64, op, x0, x1, x2, ZR)) ==
      match op case Madd => 0x9b02_7c20 case Msub => 0x9b02_fc20 case Smaddl => 0x9b22_7c20 case Smsubl => 0x9b22_fc20
    ensures Encode(Multiply(D32, Madd, x0, x1, x2, ZR)) == 0x1b02_7c20
  {
    SmallNumbers();
  }

  lemma AccessWords(size: MemOpSize, x0: RegisterID, x1: RegisterID, x2: RegisterID)
    requires x0 == 0 && x1 == 1 && x2 == 2
    ensures Encode(LoadStoreUnsigned(size, Load, x0, x1, x2)) ==
      match size
      case Size8 => 0x3940_0820
      case Size16 => 0x7940_0820
      case Size32 => 0xb940_0820
      case Size64 => 0xf940_0820
    ensures Encode(LoadStoreUnsigned(size, Store, x2, x1, x2)) ==
      match size
      case Size8 => 0x3900_0822
      case Size16 => 0x7900_0822
      case Size32 => 0xb900_0822
      case Size64 => 0xf900_0822
  {
    SmallNumbers();
  }

  lemma UnscaledAccessWords(x0: RegisterID, x1: RegisterID, four: int)
    requires x0 == 0 && x1 == 1 && four == 4
    ensures Encode(LoadStoreUnscaled(Size64, Load, x0, x1, four)) == 0xf840_4020
    ensures Encode(LoadStoreUnscaled(Size8, Load, x0, x1, x1)) == 0x3840_1020
    ensures Encode(LoadStoreUnscaled(Size64, Store, x0, x1, four)) == 0xf800_4020
  {
    SmallNumbers();
  }

  lemma IndexedAccessWords(size: MemOpSize, x0: RegisterID, x1: RegisterID, x2: RegisterID)
    requires x0 == 0 && x1 == 1 && x2 == 2
    ensures Encode(LoadStoreRegister(size, Load, x0, x1, x2, Uxtx, true)) ==
      match size
      case Size8 => 0x3862_7820
      case Size16 => 0x7862_7820
      case Size32 => 0xb862_7820
      case Size64 => 0xf862_7820
    ensures Encode(LoadStoreRegister(size, Store, x0, x1, x2, Sxtw, false)) ==
      match size
      case Size8 => 0x3822_c820
      case Size16 => 0x7822_c820
      case Size32 => 0xb822_c820
      case Size64 => 0xf822_c820
  {
    SmallNumbers();
  }

  lemma StorePairWords(mode: PairMode, fp: RegisterID, lr: RegisterID, sp: RegisterID, offset: int)
    requires fp == 29 && lr == 30 && sp == 31 && offset / 8 == 2
    ensures Encode(LoadStorePair(mode, Store, fp, lr, sp, offset)) ==
      match mode case PostIndex => 0xa881_7bfd case PairOffset => 0xa901_7bfd case PreIndex => 0xa981_7bfd
  {
    SmallNumbers();
  }

  lemma LoadPairWords(mode: PairMode, fp: RegisterID, lr: RegisterID, sp: RegisterID, offset: int)
    requires fp == 29 && lr == 30 && sp == 31 && offset / 8 == 2
    ensures Encode(LoadStorePair(mode, Load, fp, lr, sp, offset)) ==
      match mode case PostIndex => 0xa8c1_7bfd case PairOffset => 0xa941_7bfd case PreIndex => 0xa9c1_7bfd
  {
    SmallNumbers();
  }

  lemma BranchWords(link: bool, two: int)
    requires two == 2
    ensures Encode(Branch(link, two)) == if link then 0x9400_0002 else 0x1400_0002
  {
    SmallNumbers();
  }

  /** The lowest byte comes first. */
  lemma NopBytes()
    ensures Encode(Nop) == 0xd503_201f && Emitted(Nop) == [0x1f, 0x20, 0x03, 0xd5]
  {
  }

  lemma BranchRegisterWords(kind: BranchKind, lr: RegisterID)
    requires lr == 30
    ensures Encode(BranchRegister(kind, lr)) ==
      match kind case Jmp => 0xd61f_03c0 case Call => 0xd63f_03c0 case Ret => 0xd65f_03c0
  {
    SmallNumbers();
  }

  /** Every condition, one word ahead. */
  lemma ConditionWords(cond: Condition, one: int)
    requires cond != Invalid && one == 1
    ensures Encode(BranchConditional(cond, one)) ==
      match cond
      case Eq => 0x5400_0020
      case Ne => 0x5400_0021
      case Hs => 0x5400_0022
      case Lo => 0x5400_0023
      case Mi => 0x5400_0024
      case Pl => 0x5400_0025
      case Vs => 0x5400_0026
      case Vc => 0x5400_0027
      case Hi => 0x5400_0028
      case Ls => 0x5400_0029
      case Ge => 0x5400_002a
      case Lt => 0x5400_002b
      case Gt => 0x5400_002c
      case Le => 0x5400_002d
      case Al => 0x5400_002e
  {
    SmallNumbers();
  }
}
