/** The immediates that fold into one instruction. */
module Immediates {
  import opened Wrappers
  import opened Instructions
  import opened Machine

  type I32 = x: int | -0x8000_0000 <= x < 0x8000_0000

  /** An immediate as the add and subtract instructions hold it. */
  datatype ShiftedImmediate = ShiftedImmediate(u12: nat, shift12: bool, inverted: bool)

  predicate IsUInt12(value: I32) {
    0 <= value < 0x1000
  }

  function WrappingNeg(value: I32): I32 {
    if value == -0x8000_0000 then value else -value
  }

  function TryExtractShiftedImm32(immediate: I32): Option<ShiftedImmediate> {
    var negated := WrappingNeg(immediate);
    var shifted := immediate / 0x1000;
    var negatedShifted := WrappingNeg(shifted);
    if IsUInt12(immediate) then Some(ShiftedImmediate(immediate, false, false))
    else if IsUInt12(negated) then Some(ShiftedImmediate(negated, false, true))
    else if shifted * 0x1000 != immediate then None
    else if IsUInt12(shifted) then Some(ShiftedImmediate(shifted, true, false))
    else if IsUInt12(negatedShifted) then Some(ShiftedImmediate(negatedShifted, true, true))
    else None
  }

  /** The magnitude that the instruction applies. */
  function Magnitude(parts: ShiftedImmediate): nat {
    if parts.shift12 then 0x1000 * parts.u12 else parts.u12
  }

  predicate Foldable(immediate: I32) {
    -0x1000 < immediate < 0x1000 || (immediate % 0x1000 == 0 && -0x100_0000 < immediate < 0x100_0000)
  }

  /** The extraction succeeds exactly on k, -k, 4096 k and -4096 k with k below 4096, and its parts
      rebuild the immediate. */
  lemma ExtractionExact(immediate: I32)
    ensures TryExtractShiftedImm32(immediate).Some? <==> Foldable(immediate)
    ensures TryExtractShiftedImm32(immediate).Some? ==>
      var parts := TryExtractShiftedImm32(immediate).value;
      && parts.u12 < 0x1000 && immediate == (if parts.inverted then -1 else 1) * Magnitude(parts)
      && (parts.inverted ==> parts.u12 > 0)
  {
    var shifted := immediate / 0x1000;
    assert immediate == 0x1000 * shifted + immediate % 0x1000;
  }

  /** The value survives a shift up by 23 and back: its low nine bits, sign-extended. */
  predicate IsValidSignedImm9(value: I32) {
    value == SInt(value % 0x200, 0x200)
  }

  lemma SignedImm9Range(value: I32)
    ensures IsValidSignedImm9(value) <==> -0x100 <= value < 0x100
  {
    assert value == 0x200 * (value / 0x200) + value % 0x200;
  }

  predicate IsValidScaledUImm12(size: MemOpSize, offset: I32) {
    0 <= offset <= 4095 * Bytes(size) && offset % Bytes(size) == 0
  }

  /** The scaled form takes 4096 multiples of 1, 2, 4 or 8 bytes, from 0 on, and a valid offset is rebuilt from the
      field the instruction holds. */
  lemma ScaledUImm12Rebuilds(size: MemOpSize, offset: I32)
    ensures var n := if size == Size8 then 1 else if size == Size16 then 2 else if size == Size32 then 4 else 8;
            && (IsValidScaledUImm12(size, offset) <==> 0 <= offset <= 4095 * n && offset % n == 0)
            && (IsValidScaledUImm12(size, offset) ==> 0 <= offset / n < 0x1000 && offset / n * n == offset)
            && Bytes(size) == n
  {
  }
}
