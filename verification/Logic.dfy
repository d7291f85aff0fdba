/** Bitwise operations on numbers, bit by bit. */
module Logic {
  import opened Powers
  import opened Instructions
  import opened Machine

  predicate BitAt(x: nat, k: nat) {
    if k == 0 then x % 2 == 1 else BitAt(x / 2, k - 1)
  }

  lemma {:induction false} NoBits(k: nat)
    ensures !BitAt(0, k)
  {
    if k > 0 {
      NoBits(k - 1);
    }
  }

  lemma {:induction false} BitAndBits(x: nat, y: nat, k: nat)
    ensures BitAt(BitAnd(x, y), k) <==> BitAt(x, k) && BitAt(y, k)
  {
    if x == 0 || y == 0 {
      NoBits(k);
    } else if k > 0 {
      BitAndBits(x / 2, y / 2, k - 1);
    }
  }

  datatype LogicKind = BitwiseAnd | BitwiseOr | BitwiseXor

  predicate Combine(kind: LogicKind, a: bool, b: bool) {
    match kind
    case BitwiseAnd => a && b
    case BitwiseOr => a || b
    case BitwiseXor => a != b
  }

  /** The number whose `bits` low bits combine those of `x` and `y`, and that has no others. */
  function Bitwise(kind: LogicKind, x: nat, y: nat, bits: nat): (z: nat)
    ensures z < Pow2(bits)
  {
    if bits == 0 then 0
    else (if Combine(kind, x % 2 == 1, y % 2 == 1) then 1 else 0) + 2 * Bitwise(kind, x / 2, y / 2, bits - 1)
  }

  lemma {:induction false} BitwiseBits(kind: LogicKind, x: nat, y: nat, bits: nat, k: nat)
    ensures BitAt(Bitwise(kind, x, y, bits), k) <==> k < bits && Combine(kind, BitAt(x, k), BitAt(y, k))
  {
    if bits == 0 {
      NoBits(k);
    } else if k > 0 {
      BitwiseBits(kind, x / 2, y / 2, bits - 1, k - 1);
    }
  }

  function LogicOp(kind: LogicKind): LogicalOp {
    match kind case BitwiseAnd => And case BitwiseOr => Orr case BitwiseXor => Eor
  }

  lemma {:induction false} BitwiseZero(kind: LogicKind, x: nat, bits: nat)
    requires x < Pow2(bits)
    ensures Bitwise(kind, x, 0, bits) == Bitwise(kind, 0, x, bits) == if kind == BitwiseAnd then 0 else x
  {
    if bits > 0 {
      BitwiseZero(kind, x / 2, bits - 1);
    }
  }

  /** The machine's logical operations are bitwise. */
  lemma {:induction false} LogicalIsBitwise(kind: LogicKind, x: nat, y: nat, bits: nat)
    requires x < Pow2(bits) && y < Pow2(bits)
    ensures Logical(LogicOp(kind), x, y) == Bitwise(kind, x, y, bits)
  {
    if x == 0 || y == 0 {
      BitwiseZero(kind, x, bits);
      BitwiseZero(kind, y, bits);
    } else if bits > 0 {
      LogicalIsBitwise(kind, x / 2, y / 2, bits - 1);
      LogicalStep(kind, x, y);
    }
  }

  lemma LogicalStep(kind: LogicKind, x: nat, y: nat)
    requires x > 0 && y > 0
    ensures Logical(LogicOp(kind), x, y) ==
      (if Combine(kind, x % 2 == 1, y % 2 == 1) then 1 else 0) + 2 * Logical(LogicOp(kind), x / 2, y / 2)
  {
  }
}
