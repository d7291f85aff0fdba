/** Link records and the in-place patching of branch words. */
module LinkRecords {
  import opened Wrappers
  import opened Words
  import opened Instructions
  import opened Encoder
  import opened CodeBuffer
  import opened Machine
  import Modular

  datatype JumpType =
    | JumpFixed | JumpNoCondition | JumpCondition | JumpCompareAndBranch | JumpTestBit
    | JumpNoConditionFixedSize | JumpConditionFixedSize | JumpCompareAndBranchFixedSize | JumpTestBitFixedSize

  datatype JumpLinkType =
    | LinkInvalid | LinkJumpNoCondition | LinkJumpConditionDirect | LinkJumpCondition | LinkJumpCompareAndBranch
    | LinkJumpCompareAndBranchDirect | LinkJumpTestBit | LinkJumpTestBitDirect

  datatype Arm64LinkError =
    | Misaligned(at: nat)
    | OutOfBounds(at: nat, len: nat)
    | OutOfRange(offsetWords: int, fieldBits: nat)
    | ExpansionUnsupported(form: JumpLinkType)
    | NotRelocatable

  /** A jump or call whose target is resolved at link time; `from` and `to` are byte offsets. */
  datatype LinkRecord = LinkRecord(from: int, to: int, jumpType: JumpType, linkType: JumpLinkType, condition: Condition,
                                   branchKind: BranchKind, isThunk: bool)

  function NewCall(from: int, to: int): LinkRecord {
    LinkRecord(from, to, JumpNoCondition, LinkInvalid, Condition.Invalid, Call, false)
  }

  function NewJump(from: int, to: int, jumpType: JumpType, condition: Condition): LinkRecord {
    LinkRecord(from, to, jumpType, LinkInvalid, condition, Jmp, false)
  }

  /** Linked size in bytes. */
  function JumpSize(t: JumpType): int {
    match t
    case JumpFixed => 0
    case JumpNoCondition => 4
    case JumpNoConditionFixedSize => 4
    case _ => 8
  }

  function LinkSize(t: JumpLinkType): int {
    match t
    case LinkInvalid => 0
    case LinkJumpCondition => 8
    case LinkJumpCompareAndBranch => 8
    case LinkJumpTestBit => 8
    case _ => 4
  }

  function JumpSizeDelta(t: JumpType, l: JumpLinkType): int {
    JumpSize(t) - LinkSize(l)
  }

  /** The value survives a shift up and back in 64 bits: it is the sign extension of its low bits. */
  predicate IsInt(power: nat, value: int)
    requires power > 0
  {
    SInt(value % power, power) == value
  }

  /** The distance the jump form is chosen by. */
  function Relative(r: LinkRecord, direct: JumpLinkType): int {
    r.to - r.from + if r.isThunk then JumpSizeDelta(r.jumpType, direct) else 0
  }

  function ComputeJumpType(r: LinkRecord): JumpLinkType {
    match r.jumpType
    case JumpFixed => LinkInvalid
    case JumpNoConditionFixedSize => LinkJumpNoCondition
    case JumpConditionFixedSize => LinkJumpCondition
    case JumpCompareAndBranchFixedSize => LinkJumpCompareAndBranch
    case JumpTestBitFixedSize => LinkJumpTestBit
    case JumpNoCondition => LinkJumpNoCondition
    case JumpCondition =>
      if IsInt(0x20_0000, Relative(r, LinkJumpConditionDirect)) then LinkJumpConditionDirect else LinkJumpCondition
    case JumpCompareAndBranch =>
      if IsInt(0x20_0000, Relative(r, LinkJumpCompareAndBranchDirect)) then LinkJumpCompareAndBranchDirect
      else LinkJumpCompareAndBranch
    case JumpTestBit =>
      if IsInt(0x4000, Relative(r, LinkJumpTestBitDirect)) then LinkJumpTestBitDirect else LinkJumpTestBit
  }

  // ---- Patching, as a function of the code ----

  function CheckAligned(at: int): Result<(), Arm64LinkError> {
    if at % 4 != 0 then Err(Misaligned(at % 0x1_0000_0000)) else Ok(())
  }

  function WriteWordLe(code: Code, at: int, w: Word): Result<Code, Arm64LinkError> {
    if at < 0 || at + 4 > |code| then Err(OutOfBounds(at % 0x1_0000_0000, |code|)) else Ok(PatchWord(code, at, w))
  }

  function LinkJumpOrCall(code: Code, from: int, to: int, isCall: bool): Result<Code, Arm64LinkError> {
    var _ :- CheckAligned(from);
    var _ :- CheckAligned(to);
    var offset := (to - from) / 4;
    if !IsInt(0x400_0000, offset) then Err(OutOfRange(offset, 26))
    else WriteWordLe(code, from, Encode(Branch(isCall, offset)))
  }

  function LinkConditionalBranchDirect(code: Code, from: int, to: int, condition: Condition)
    : Result<Code, Arm64LinkError>
  {
    var _ :- CheckAligned(from);
    var _ :- CheckAligned(to);
    var offset := (to - from) / 4;
    if !IsInt(0x8_0000, offset) then Err(OutOfRange(offset, 19))
    else WriteWordLe(code, from, Encode(BranchConditional(condition, offset)))
  }

  function Link(r: LinkRecord, code: Code): Result<Code, Arm64LinkError> {
    match ComputeJumpType(r)
    case LinkJumpNoCondition =>
      if r.branchKind == Ret then Err(NotRelocatable) else LinkJumpOrCall(code, r.from, r.to, r.branchKind == Call)
    case LinkJumpConditionDirect => LinkConditionalBranchDirect(code, r.from, r.to, r.condition)
    case other => Err(ExpansionUnsupported(other))
  }

  // ---- Ranges ----

  /** The shift test is the range test. */
  lemma IsIntRange(power: nat, value: int)
    requires power > 0 && power % 2 == 0
    ensures IsInt(power, value) <==> -(power as int) <= 2 * value < power
  {
    Modular.Wrap(value, power);
  }

  predicate Aligned(r: LinkRecord) {
    r.from % 4 == 0 && r.to % 4 == 0
  }

  predicate WordInCode(code: Code, at: int) {
    0 <= at && at + 4 <= |code|
  }

  predicate Conditional(r: LinkRecord) {
    r.jumpType == JumpCondition
  }

  predicate Unconditional(r: LinkRecord) {
    (r.jumpType == JumpNoCondition || r.jumpType == JumpNoConditionFixedSize) && r.branchKind != Ret
  }

  predicate IsShort(form: JumpLinkType) {
    form.LinkJumpConditionDirect? || form.LinkJumpCompareAndBranchDirect? || form.LinkJumpTestBitDirect?
  }

  /** A jump keeps its family: the short form of a conditional one is chosen exactly within its reach, which
      thunks see 4 bytes further on, and its long form otherwise; a fixed-size one is long. The long forms fill
      the 8 bytes that their jumps reserved, and the short ones leave 4 of them over. */
  lemma ChosenForm(r: LinkRecord)
    ensures var distance := r.to - r.from + if r.isThunk then 4 else 0;
            var near, nearBit := -0x10_0000 <= distance < 0x10_0000, -0x2000 <= distance < 0x2000;
            var form, reserved := ComputeJumpType(r), JumpSize(r.jumpType);
            match r.jumpType
            case JumpFixed => form == LinkInvalid && reserved == 0
            case JumpNoCondition => form == LinkJumpNoCondition && reserved == 4
            case JumpNoConditionFixedSize => form == LinkJumpNoCondition && reserved == 4
            case JumpConditionFixedSize => form == LinkJumpCondition && reserved == 8
            case JumpCompareAndBranchFixedSize => form == LinkJumpCompareAndBranch && reserved == 8
            case JumpTestBitFixedSize => form == LinkJumpTestBit && reserved == 8
            case JumpCondition =>
              form == (if near then LinkJumpConditionDirect else LinkJumpCondition) && reserved == 8
            case JumpCompareAndBranch =>
              form == (if near then LinkJumpCompareAndBranchDirect else LinkJumpCompareAndBranch) && reserved == 8
            case JumpTestBit =>
              form == (if nearBit then LinkJumpTestBitDirect else LinkJumpTestBit) && reserved == 8
    ensures JumpSizeDelta(r.jumpType, ComputeJumpType(r)) == if IsShort(ComputeJumpType(r)) then 4 else 0
  {
    IsIntRange(0x20_0000, r.to - r.from + if r.isThunk then 4 else 0);
    IsIntRange(0x4000, r.to - r.from + if r.isThunk then 4 else 0);
  }

  /** For an aligned record the 21-bit test on bytes and the 19-bit test on words agree. */
  lemma ByteAndWordTestsAgree(r: LinkRecord)
    requires Aligned(r)
    ensures IsInt(0x20_0000, r.to - r.from) <==> IsInt(0x8_0000, (r.to - r.from) / 4)
  {
    IsIntRange(0x20_0000, r.to - r.from);
    IsIntRange(0x8_0000, (r.to - r.from) / 4);
  }

  predicate IsOutOfRange(result: Result<Code, Arm64LinkError>) {
    result.Err? && result.error.OutOfRange?
  }

  /** The direct conditional patch, for any code and ends. */
  lemma DirectExact(code: Code, from: int, to: int, condition: Condition)
    ensures var linked := LinkConditionalBranchDirect(code, from, to, condition);
            var aligned := from % 4 == 0 && to % 4 == 0;
            var near := -0x10_0000 <= to - from < 0x10_0000;
            && (IsOutOfRange(linked) <==> aligned && !near)
            && (linked.Ok? <==> aligned && near && WordInCode(code, from))
            && (linked.Ok? ==>
                  linked == Ok(PatchWord(code, from, Encode(BranchConditional(condition, (to - from) / 4)))))
  {
    IsIntRange(0x8_0000, (to - from) / 4);
  }

  /** The form chosen for a conditional jump within the code is one the patcher can encode. */
  lemma ChosenFormFits(r: LinkRecord, code: Code)
    requires Conditional(r) && !r.isThunk
    ensures !IsOutOfRange(Link(r, code))
  {
    if Aligned(r) {
      ByteAndWordTestsAgree(r);
    }
  }

  lemma ThunkDistance(from: int, to: int)
    ensures var chosen := -0x10_0000 <= to - from + 4 < 0x10_0000;
            var near := -0x10_0000 <= to - from < 0x10_0000;
            from % 4 == 0 && to % 4 == 0 && chosen && !near <==> from % 4 == 0 && to - from == -0x10_0000 - 4
  {
  }

  lemma ThunkForm(r: LinkRecord)
    requires Conditional(r) && r.isThunk
    ensures ComputeJumpType(r) ==
      if -0x10_0000 <= r.to - r.from + 4 < 0x10_0000 then LinkJumpConditionDirect else LinkJumpCondition
  {
    IsIntRange(0x20_0000, r.to - r.from + 4);
  }

  /** The bias of thunk records lets exactly one distance through that the patcher cannot encode. */
  lemma ThunkOutOfRange(r: LinkRecord, code: Code)
    requires Conditional(r) && r.isThunk
    ensures IsOutOfRange(Link(r, code)) <==> r.from % 4 == 0 && r.to - r.from == -0x10_0000 - 4
  {
    ThunkForm(r);
    ThunkDistance(r.from, r.to);
    DirectExact(code, r.from, r.to, r.condition);
  }

  /** An unconditional branch or call links exactly when both ends are aligned, the distance is within
      128 MiB and the word lies in the code. */
  lemma UnconditionalLinks(r: LinkRecord, code: Code)
    requires Unconditional(r)
    ensures Link(r, code).Ok? <==>
      Aligned(r) && -0x800_0000 <= r.to - r.from < 0x800_0000 && WordInCode(code, r.from)
  {
    JumpOrCallExact(code, r.from, r.to, r.branchKind == Call);
  }

  /** The patching step itself, for any code and ends. */
  lemma JumpOrCallExact(code: Code, from: int, to: int, isCall: bool)
    ensures LinkJumpOrCall(code, from, to, isCall).Ok? <==>
      from % 4 == 0 && to % 4 == 0 && -0x800_0000 <= to - from < 0x800_0000 && WordInCode(code, from)
    ensures LinkJumpOrCall(code, from, to, isCall).Ok? ==>
      && WordInCode(code, from) && Legal(Branch(isCall, (to - from) / 4)) && from + 4 * ((to - from) / 4) == to
      && LinkJumpOrCall(code, from, to, isCall) == Ok(PatchWord(code, from, Encode(Branch(isCall, (to - from) / 4))))
  {
    IsIntRange(0x400_0000, (to - from) / 4);
  }

  /** A conditional one within 1 MiB. */
  lemma ConditionalLinks(r: LinkRecord, code: Code)
    requires Conditional(r) && !r.isThunk
    ensures Link(r, code).Ok? <==>
      Aligned(r) && -0x10_0000 <= r.to - r.from < 0x10_0000 && WordInCode(code, r.from)
  {
    IsIntRange(0x20_0000, r.to - r.from);
    DirectExact(code, r.from, r.to, r.condition);
  }

  /** Every other form is refused. */
  lemma OthersRefused(r: LinkRecord, code: Code)
    requires !Unconditional(r) && !Conditional(r)
    ensures Link(r, code).Err? && (Link(r, code).error.ExpansionUnsupported? || Link(r, code).error == NotRelocatable)
  {
  }

  /** What each error says of the record and the code. */
  predicate LinkErrorHolds(error: Arm64LinkError, r: LinkRecord, code: Code) {
    var unconditional := r.jumpType == JumpNoCondition || r.jumpType == JumpNoConditionFixedSize;
    match error
    case Misaligned(at) => at == (if r.from % 4 != 0 then r.from else r.to) % 0x1_0000_0000 && !Aligned(r)
    case OutOfRange(offsetWords, fieldBits) =>
      && Aligned(r) && r.from + 4 * offsetWords == r.to
      && (fieldBits == 26 || (fieldBits == 19 && r.jumpType == JumpCondition))
      && (fieldBits == 26 ==> unconditional && !(-0x200_0000 <= offsetWords < 0x200_0000))
      && (fieldBits == 19 ==> !(-0x4_0000 <= offsetWords < 0x4_0000))
    case OutOfBounds(at, len) => at == r.from % 0x1_0000_0000 && len == |code| && !WordInCode(code, r.from)
    case ExpansionUnsupported(form) => form == ComputeJumpType(r) && !unconditional && form != LinkJumpConditionDirect
    case NotRelocatable => unconditional && r.branchKind == Ret
  }

  lemma JumpOrCallErrors(code: Code, from: int, to: int, isCall: bool)
    requires LinkJumpOrCall(code, from, to, isCall).Err?
    ensures match LinkJumpOrCall(code, from, to, isCall).error
            case Misaligned(at) => at == (if from % 4 != 0 then from else to) % 0x1_0000_0000 &&
              (from % 4 != 0 || to % 4 != 0)
            case OutOfRange(words, bits) => from % 4 == 0 && to % 4 == 0 && from + 4 * words == to && bits == 26 &&
              !(-0x200_0000 <= words < 0x200_0000)
            case OutOfBounds(at, len) => at == from % 0x1_0000_0000 && len == |code| && !WordInCode(code, from)
            case _ => false
  {
    IsIntRange(0x400_0000, (to - from) / 4);
  }

  lemma UnconditionalErrors(r: LinkRecord, code: Code)
    requires (r.jumpType == JumpNoCondition || r.jumpType == JumpNoConditionFixedSize) && Link(r, code).Err?
    ensures LinkErrorHolds(Link(r, code).error, r, code)
  {
    if r.branchKind != Ret {
      JumpOrCallErrors(code, r.from, r.to, r.branchKind == Call);
    }
  }

  lemma DirectErrors(code: Code, from: int, to: int, condition: Condition)
    requires LinkConditionalBranchDirect(code, from, to, condition).Err?
    ensures match LinkConditionalBranchDirect(code, from, to, condition).error
            case Misaligned(at) => at == (if from % 4 != 0 then from else to) % 0x1_0000_0000 &&
              (from % 4 != 0 || to % 4 != 0)
            case OutOfRange(words, bits) => from % 4 == 0 && to % 4 == 0 && from + 4 * words == to && bits == 19 &&
              !(-0x4_0000 <= words < 0x4_0000)
            case OutOfBounds(at, len) => at == from % 0x1_0000_0000 && len == |code| && !WordInCode(code, from)
            case _ => false
  {
    IsIntRange(0x8_0000, (to - from) / 4);
  }

  lemma ConditionalErrors(r: LinkRecord, code: Code)
    requires ComputeJumpType(r) == LinkJumpConditionDirect && Link(r, code).Err?
    ensures LinkErrorHolds(Link(r, code).error, r, code)
  {
    DirectErrors(code, r.from, r.to, r.condition);
  }

  /** An error tells the truth. */
  lemma LinkErrors(r: LinkRecord, code: Code)
    requires Link(r, code).Err?
    ensures LinkErrorHolds(Link(r, code).error, r, code)
  {
    if r.jumpType == JumpNoCondition || r.jumpType == JumpNoConditionFixedSize {
      UnconditionalErrors(r, code);
    } else if ComputeJumpType(r) == LinkJumpConditionDirect {
      ConditionalErrors(r, code);
    }
  }

  // ---- What a linked word does ----

  /** A conditional record leaves a `b.cond` of its condition, a call a `bl` and any other record a `b`. */
  function LinkedInstr(r: LinkRecord): Instr {
    if r.jumpType == JumpCondition then BranchConditional(r.condition, (r.to - r.from) / 4)
    else Branch(r.branchKind == Call, (r.to - r.from) / 4)
  }

  /** Where a branch at `at` goes. */
  function BranchTarget(i: Instr, at: int): int
    requires i.Branch? || i.BranchConditional?
  {
    at + 4 * if i.Branch? then i.imm26 else i.imm19
  }

  lemma ConditionalPatches(r: LinkRecord, code: Code)
    requires Link(r, code).Ok? && Conditional(r)
    ensures Aligned(r) && WordInCode(code, r.from) && -0x4_0000 <= (r.to - r.from) / 4 < 0x4_0000
    ensures Link(r, code) == Ok(PatchWord(code, r.from, Encode(LinkedInstr(r))))
  {
    DirectExact(code, r.from, r.to, r.condition);
  }

  lemma UnconditionalPatches(r: LinkRecord, code: Code)
    requires Link(r, code).Ok? && !Conditional(r)
    ensures Aligned(r) && WordInCode(code, r.from) && -0x200_0000 <= (r.to - r.from) / 4 < 0x200_0000
    ensures Link(r, code) == Ok(PatchWord(code, r.from, Encode(LinkedInstr(r))))
  {
    JumpOrCallExact(code, r.from, r.to, r.branchKind == Call);
  }

  lemma BranchMeetsTarget(r: LinkRecord)
    requires Aligned(r) && -0x800_0000 <= r.to - r.from < 0x800_0000
    requires Conditional(r) ==> -0x10_0000 <= r.to - r.from < 0x10_0000
    ensures BranchTarget(LinkedInstr(r), r.from) == r.to
    ensures (Conditional(r) ==> r.condition != Condition.Invalid) ==> Legal(LinkedInstr(r))
  {
  }

  /** Success patches one word and nothing else; the distance is exact and the instruction legal. */
  lemma LinkPatches(r: LinkRecord, code: Code)
    requires Link(r, code).Ok?
    ensures WordInCode(code, r.from) && Link(r, code) == Ok(PatchWord(code, r.from, Encode(LinkedInstr(r))))
    ensures BranchTarget(LinkedInstr(r), r.from) == r.to
    ensures (Conditional(r) ==> r.condition != Condition.Invalid) ==> Legal(LinkedInstr(r))
  {
    if Conditional(r) {
      ConditionalPatches(r, code);
    } else {
      UnconditionalPatches(r, code);
    }
    BranchMeetsTarget(r);
  }

  lemma LinkedIsAligned(r: LinkRecord, code: Code)
    requires Link(r, code).Ok?
    ensures Aligned(r)
  {
    if Conditional(r) {
      ConditionalPatches(r, code);
    } else {
      UnconditionalPatches(r, code);
    }
  }

  lemma DistanceInWords(r: LinkRecord)
    requires Aligned(r)
    ensures (r.to - r.from) % 4 == 0
  {
  }

  /** After linking, the site decodes to the branch of its kind and condition with exactly its target,
      and no other byte has changed. */
  lemma LinkedSite(r: LinkRecord, code: Code)
    requires Link(r, code).Ok? && (Conditional(r) ==> r.condition != Condition.Invalid)
    ensures var linked := Link(r, code).value;
            && |linked| == |code| && WordInCode(code, r.from)
            && (r.to - r.from) % 4 == 0
            && DecodeAt(linked, r.from) == Some(LinkedInstr(r))
            && forall k :: 0 <= k < |code| && !(r.from <= k < r.from + 4) ==> linked[k] == code[k]
  {
    LinkPatches(r, code);
    DecodeEncode(LinkedInstr(r));
    LinkedIsAligned(r, code);
    DistanceInWords(r);
    PatchedWord(code, r.from, Encode(LinkedInstr(r)));
    PatchedBytes(code, r.from, Encode(LinkedInstr(r)));
  }

  lemma PatchedBytes(code: Code, at: nat, w: Word)
    requires at + 4 <= |code|
    ensures forall k :: 0 <= k < |code| && !(at <= k < at + 4) ==> PatchWord(code, at, w)[k] == code[k]
  {
  }

  // ---- The same, in place ----

  /** An in-place operation does what its function says; on an error it leaves the bytes alone. */
  ghost predicate Patches(spec: Result<Code, Arm64LinkError>, result: Result<(), Arm64LinkError>, before: Code,
                          after: Code) {
    match spec
    case Ok(patched) => result == Ok(()) && after == patched
    case Err(error) => result == Err(error) && after == before
  }

  method WriteWordInPlace(code: array<Byte>, at: int, w: Word) returns (result: Result<(), Arm64LinkError>)
    modifies code
    ensures Patches(WriteWordLe(old(code[..]), at, w), result, old(code[..]), code[..])
  {
    if at < 0 || at + 4 > code.Length {
      return Err(OutOfBounds(at % 0x1_0000_0000, code.Length));
    }
    var bytes := ToBytes(w);
    code[at], code[at + 1], code[at + 2], code[at + 3] := bytes[0], bytes[1], bytes[2], bytes[3];
    result := Ok(());
  }

  method LinkJumpOrCallInPlace(code: array<Byte>, from: int, to: int, isCall: bool)
    returns (result: Result<(), Arm64LinkError>)
    modifies code
    ensures Patches(LinkJumpOrCall(old(code[..]), from, to, isCall), result, old(code[..]), code[..])
  {
    var _ :- CheckAligned(from);
    var _ :- CheckAligned(to);
    var offset := (to - from) / 4;
    if !IsInt(0x400_0000, offset) {
      return Err(OutOfRange(offset, 26));
    }
    result := WriteWordInPlace(code, from, Encode(Branch(isCall, offset)));
  }

  method LinkConditionalBranchInPlace(code: array<Byte>, from: int, to: int, condition: Condition)
    returns (result: Result<(), Arm64LinkError>)
    modifies code
    ensures Patches(LinkConditionalBranchDirect(old(code[..]), from, to, condition), result, old(code[..]), code[..])
  {
    var _ :- CheckAligned(from);
    var _ :- CheckAligned(to);
    var offset := (to - from) / 4;
    if !IsInt(0x8_0000, offset) {
      return Err(OutOfRange(offset, 19));
    }
    result := WriteWordInPlace(code, from, Encode(BranchConditional(condition, offset)));
  }

  /** A record with the link form it computes when it is linked. */
  class Arm64LinkRecord {
    var record: LinkRecord

    constructor (r: LinkRecord)
      ensures record == r
    {
      record := r;
    }

    method ComputeType() returns (form: JumpLinkType)
      modifies this
      ensures form == ComputeJumpType(old(record)) && record == old(record).(linkType := form)
    {
      form := ComputeJumpType(record);
      record := record.(linkType := form);
    }

    /** Computes the form and patches the code in place. */
    method LinkInPlace(code: array<Byte>) returns (result: Result<(), Arm64LinkError>)
      modifies this, code
      ensures record == old(record).(linkType := ComputeJumpType(old(record)))
      ensures Patches(Link(old(record), old(code[..])), result, old(code[..]), code[..])
    {
      var form := ComputeType();
      match form {
        case LinkJumpNoCondition =>
          if record.branchKind == Ret {
            return Err(NotRelocatable);
          }
          result := LinkJumpOrCallInPlace(code, record.from, record.to, record.branchKind == Call);
        case LinkJumpConditionDirect =>
          result := LinkConditionalBranchInPlace(code, record.from, record.to, record.condition);
        case other => result := Err(ExpansionUnsupported(other));
      }
    }
  }
}
