/** B3 procedures: block and value descriptors and the validator that every builder runs. */
module B3Procedure {
  import opened Wrappers
  import opened Sequences
  import opened Graphs

  /** Rust wraps both ids around a `u32`; they are only ever compared. */
  type BlockId = nat
  type ValueId = nat

  datatype Block = Block(
    id: BlockId,
    values: seq<ValueId>,
    predecessors: seq<BlockId>,
    successors: seq<BlockId>
  )

  datatype Value = Value(
    id: ValueId,
    children: seq<ValueId>,
    ownerBlock: Option<BlockId>,
    terminal: bool
  )

  datatype Procedure = Procedure(blocks: seq<BlockId>, values: seq<ValueId>)

  datatype ValidationError =
    | DuplicateBlockId(block: BlockId)
    | DuplicateValueId(value: ValueId)
    | MissingBlock(block: BlockId)
    | MissingValue(value: ValueId)
    | ValueOwnerMissing(value: ValueId)
    | ValueChildMissing(value: ValueId)
    | TerminalValueNotLast(block: BlockId)
    | ValueCycle(value: ValueId)

  // ---- Lookup by id: the first descriptor that carries it ----

  function BlockIds(blocks: seq<Block>): (ids: seq<BlockId>)
    ensures |ids| == |blocks|
    ensures forall i :: 0 <= i < |blocks| ==> ids[i] == blocks[i].id
  {
    seq(|blocks|, i requires 0 <= i < |blocks| => blocks[i].id)
  }

  predicate HasBlock(blocks: seq<Block>, id: BlockId) {
    exists b :: b in blocks && b.id == id
  }

  predicate HasValue(values: seq<Value>, id: ValueId) {
    exists v :: v in values && v.id == id
  }

  function FindBlock(blocks: seq<Block>, id: BlockId): (r: Option<Block>)
    ensures r.Some? <==> HasBlock(blocks, id)
    ensures r.Some? ==> r.value in blocks && r.value.id == id
  {
    if blocks == [] then None
    else if blocks[0].id == id then Some(blocks[0])
    else FindBlock(blocks[1..], id)
  }

  function FindValue(values: seq<Value>, id: ValueId): (r: Option<Value>)
    ensures r.Some? <==> HasValue(values, id)
    ensures r.Some? ==> r.value in values && r.value.id == id
  {
    if values == [] then None
    else if values[0].id == id then Some(values[0])
    else FindValue(values[1..], id)
  }

  ghost predicate DistinctBlocks(blocks: seq<Block>) {
    forall i, j :: 0 <= i < j < |blocks| ==> blocks[i].id != blocks[j].id
  }

  ghost predicate DistinctValues(values: seq<Value>) {
    forall i, j :: 0 <= i < j < |values| ==> values[i].id != values[j].id
  }

  // ---- Validation, with the first error in source order ----

  function FirstMissingValue(ids: seq<ValueId>, values: seq<Value>): (r: Option<ValueId>)
    ensures r.None? <==> forall id :: id in ids ==> HasValue(values, id)
    ensures r.Some? ==> r.value in ids && !HasValue(values, r.value)
  {
    if ids == [] then None
    else if !HasValue(values, ids[0]) then Some(ids[0])
    else
      assert ids == [ids[0]] + ids[1..];
      FirstMissingValue(ids[1..], values)
  }

  function FirstMissingBlock(ids: seq<BlockId>, blocks: seq<Block>): (r: Option<BlockId>)
    ensures r.None? <==> forall id :: id in ids ==> HasBlock(blocks, id)
    ensures r.Some? ==> r.value in ids && !HasBlock(blocks, r.value)
  {
    if ids == [] then None
    else if !HasBlock(blocks, ids[0]) then Some(ids[0])
    else
      assert ids == [ids[0]] + ids[1..];
      FirstMissingBlock(ids[1..], blocks)
  }

  predicate IsTerminal(values: seq<Value>, id: ValueId) {
    var found := FindValue(values, id);
    found.Some? && found.value.terminal
  }

  /** Only the last value of a block may be terminal. */
  predicate TerminalsLast(ids: seq<ValueId>, values: seq<Value>) {
    forall i :: 0 <= i < |ids| - 1 ==> !IsTerminal(values, ids[i])
  }

  function ValidateBlock(block: Block, values: seq<Value>): (r: Result<(), ValidationError>) {
    var missing := FirstMissingValue(block.values, values);
    if missing.Some? then Err(MissingValue(missing.value))
    else if !TerminalsLast(block.values, values) then Err(TerminalValueNotLast(block.id))
    else Ok(())
  }

  function ValidateValue(value: Value, blocks: seq<Block>, values: seq<Value>): (r: Result<(), ValidationError>) {
    if value.ownerBlock.Some? && !HasBlock(blocks, value.ownerBlock.value) then Err(ValueOwnerMissing(value.id))
    else
      var missing := FirstMissingValue(value.children, values);
      if missing.Some? then Err(ValueChildMissing(missing.value)) else Ok(())
  }

  function ValidateBlocksFrom(blocks: seq<Block>, values: seq<Value>, from: nat): (r: Result<(), ValidationError>)
    requires from <= |blocks|
    decreases |blocks| - from
  {
    if from == |blocks| then Ok(())
    else if HasBlock(blocks[from + 1..], blocks[from].id) then Err(DuplicateBlockId(blocks[from].id))
    else
      var _ :- ValidateBlock(blocks[from], values);
      ValidateBlocksFrom(blocks, values, from + 1)
  }

  function ValidateValuesFrom(blocks: seq<Block>, values: seq<Value>, from: nat): (r: Result<(), ValidationError>)
    requires from <= |values|
    decreases |values| - from
  {
    if from == |values| then Ok(())
    else if HasValue(values[from + 1..], values[from].id) then Err(DuplicateValueId(values[from].id))
    else
      var _ :- ValidateValue(values[from], blocks, values);
      ValidateValuesFrom(blocks, values, from + 1)
  }

  /** The check that `B3ProcedureBuilder::build` runs before releasing a procedure. */
  function ValidateProcedureParts(procedure: Procedure, blocks: seq<Block>, values: seq<Value>):
    (r: Result<(), ValidationError>)
  {
    var missingBlock := FirstMissingBlock(procedure.blocks, blocks);
    if missingBlock.Some? then Err(MissingBlock(missingBlock.value))
    else
      var missingValue := FirstMissingValue(procedure.values, values);
      if missingValue.Some? then Err(MissingValue(missingValue.value))
      else
        var _ :- ValidateBlocksFrom(blocks, values, 0);
        ValidateValuesFrom(blocks, values, 0)
  }

  /** The values of the block exist, and only its last one has a descriptor, the first with its id, that is
      terminal. */
  ghost predicate BlockWellFormed(block: Block, values: seq<Value>) {
    && (forall id :: id in block.values ==> exists v :: v in values && v.id == id)
    && (forall i, k :: 0 <= i < |block.values| && IsFirst(values, k, block.values[i]) && values[k].terminal ==>
          i == |block.values| - 1)
  }

  ghost predicate IsFirst(values: seq<Value>, k: int, id: ValueId) {
    0 <= k < |values| && values[k].id == id && forall j :: 0 <= j < k ==> values[j].id != id
  }

  ghost predicate ValueWellFormed(value: Value, blocks: seq<Block>, values: seq<Value>) {
    && (value.ownerBlock.Some? ==> exists b :: b in blocks && b.id == value.ownerBlock.value)
    && (forall id :: id in value.children ==> exists v :: v in values && v.id == id)
  }

  lemma {:induction false} FindValueFirst(values: seq<Value>, id: ValueId)
    ensures FindValue(values, id).Some? ==> exists k :: IsFirst(values, k, id)
    ensures forall k :: IsFirst(values, k, id) ==> FindValue(values, id) == Some(values[k])
  {
    if values != [] {
      FindValueFirst(values[1..], id);
      if values[0].id == id {
        assert IsFirst(values, 0, id);
      } else {
        forall k | IsFirst(values, k, id) ensures IsFirst(values[1..], k - 1, id) {
          assert k > 0;
        }
        if j :| IsFirst(values[1..], j, id) {
          assert IsFirst(values, j + 1, id);
        }
      }
    }
  }

  /** A block is accepted exactly when it is well formed. */
  lemma ValidBlock(block: Block, values: seq<Value>)
    ensures ValidateBlock(block, values).Ok? <==> BlockWellFormed(block, values)
  {
    var ids := block.values;
    forall i | 0 <= i < |ids|
      ensures IsTerminal(values, ids[i]) <==> exists k :: IsFirst(values, k, ids[i]) && values[k].terminal
    {
      FindValueFirst(values, ids[i]);
    }
  }

  lemma {:induction false} ValidBlocksFrom(blocks: seq<Block>, values: seq<Value>, from: nat)
    requires from <= |blocks|
    ensures ValidateBlocksFrom(blocks, values, from).Ok? <==>
      && (forall i, j :: from <= i < j < |blocks| ==> blocks[i].id != blocks[j].id)
      && (forall i :: from <= i < |blocks| ==> BlockWellFormed(blocks[i], values))
    decreases |blocks| - from
  {
    if from < |blocks| {
      ValidBlock(blocks[from], values);
      ValidBlocksFrom(blocks, values, from + 1);
      var later := blocks[from + 1..];
      assert HasBlock(later, blocks[from].id) <==>
        exists j :: from < j < |blocks| && blocks[j].id == blocks[from].id by {
        if j :| from < j < |blocks| && blocks[j].id == blocks[from].id {
          assert later[j - from - 1] in later;
        }
      }
    }
  }

  lemma {:induction false} ValidValuesFrom(blocks: seq<Block>, values: seq<Value>, from: nat)
    requires from <= |values|
    ensures ValidateValuesFrom(blocks, values, from).Ok? <==>
      && (forall i, j :: from <= i < j < |values| ==> values[i].id != values[j].id)
      && (forall i :: from <= i < |values| ==> ValueWellFormed(values[i], blocks, values))
    decreases |values| - from
  {
    if from < |values| {
      ValidValuesFrom(blocks, values, from + 1);
      var later := values[from + 1..];
      assert HasValue(later, values[from].id) <==>
        exists j :: from < j < |values| && values[j].id == values[from].id by {
        if j :| from < j < |values| && values[j].id == values[from].id {
          assert later[j - from - 1] in later;
        }
      }
    }
  }

  /** A procedure builds exactly when its ids resolve and are distinct, the values of its blocks exist with a
      terminal one, if there is one, standing last, and its values name existing owners and children. */
  lemma ValidProcedureParts(procedure: Procedure, blocks: seq<Block>, values: seq<Value>)
    ensures ValidateProcedureParts(procedure, blocks, values).Ok? <==>
      && (forall id :: id in procedure.blocks ==> exists b :: b in blocks && b.id == id)
      && (forall id :: id in procedure.values ==> exists v :: v in values && v.id == id)
      && (forall i, j :: 0 <= i < j < |blocks| ==> blocks[i].id != blocks[j].id)
      && (forall i, j :: 0 <= i < j < |values| ==> values[i].id != values[j].id)
      && (forall b, id :: b in blocks && id in b.values ==> exists v :: v in values && v.id == id)
      && (forall b, i, v :: b in blocks && 0 <= i < |b.values| && v in values && v.id == b.values[i] && v.terminal ==>
            i == |b.values| - 1)
      && (forall v :: v in values && v.ownerBlock.Some? ==> exists b :: b in blocks && b.id == v.ownerBlock.value)
      && (forall v, id :: v in values && id in v.children ==> exists c :: c in values && c.id == id)
  {
    ValidBlocksFrom(blocks, values, 0);
    ValidValuesFrom(blocks, values, 0);
    if DistinctValues(values) {
      forall k, id ensures IsFirst(values, k, id) <==> 0 <= k < |values| && values[k].id == id {
      }
    }
  }

  lemma {:induction false} BlocksFromError(blocks: seq<Block>, values: seq<Value>, from: nat)
    requires from <= |blocks|
    ensures var r := ValidateBlocksFrom(blocks, values, from);
            r.Err? ==> ErrorHolds(r.error, blocks, values)
    decreases |blocks| - from
  {
    if from < |blocks| {
      BlocksFromError(blocks, values, from + 1);
      var later := blocks[from + 1..];
      if HasBlock(later, blocks[from].id) {
        var b :| b in later && b.id == blocks[from].id;
        var k :| 0 <= k < |later| && later[k] == b;
        assert blocks[from + 1 + k].id == blocks[from].id;
      } else {
        BlockError(blocks[from], blocks, values);
      }
    }
  }

  lemma BlockError(block: Block, blocks: seq<Block>, values: seq<Value>)
    requires block in blocks
    ensures var r := ValidateBlock(block, values);
            r.Err? ==> ErrorHolds(r.error, blocks, values)
  {
    if FirstMissingValue(block.values, values).None? && !TerminalsLast(block.values, values) {
      var i :| 0 <= i < |block.values| - 1 && IsTerminal(values, block.values[i]);
      var v := FindValue(values, block.values[i]).value;
      assert v in values && v.id == block.values[i] && v.terminal;
    }
  }

  lemma {:induction false} ValuesFromError(blocks: seq<Block>, values: seq<Value>, from: nat)
    requires from <= |values|
    ensures var r := ValidateValuesFrom(blocks, values, from);
            r.Err? ==> ErrorHolds(r.error, blocks, values)
    decreases |values| - from
  {
    if from < |values| {
      ValuesFromError(blocks, values, from + 1);
      var later := values[from + 1..];
      if HasValue(later, values[from].id) {
        var v :| v in later && v.id == values[from].id;
        var k :| 0 <= k < |later| && later[k] == v;
        assert values[from + 1 + k].id == values[from].id;
      }
    }
  }

  /** What is wrong when a block or value of a procedure is reported. */
  ghost predicate ErrorHolds(e: ValidationError, blocks: seq<Block>, values: seq<Value>) {
    match e
    case DuplicateBlockId(id) => exists i, j :: 0 <= i < j < |blocks| && blocks[i].id == id == blocks[j].id
    case DuplicateValueId(id) => exists i, j :: 0 <= i < j < |values| && values[i].id == id == values[j].id
    case MissingValue(id) => (exists b :: b in blocks && id in b.values) && forall v :: v in values ==> v.id != id
    case TerminalValueNotLast(id) =>
      exists b, i, v :: b in blocks && b.id == id && 0 <= i < |b.values| - 1 &&
                        v in values && v.id == b.values[i] && v.terminal
    case ValueOwnerMissing(id) =>
      exists v :: v in values && v.id == id && v.ownerBlock.Some? &&
        forall b :: b in blocks ==> b.id != v.ownerBlock.value
    case ValueChildMissing(id) =>
      (exists v :: v in values && id in v.children) && forall v :: v in values ==> v.id != id
    case MissingBlock(_) => false
    case ValueCycle(_) => false
  }

  /** An error reports something that is wrong with the procedure: ids it lists itself are looked at first, then its
      blocks, then its values. */
  lemma ErrorsHold(procedure: Procedure, blocks: seq<Block>, values: seq<Value>)
    ensures match ValidateProcedureParts(procedure, blocks, values)
            case Ok(_) => true
            case Err(e) =>
              if exists id :: id in procedure.blocks && forall b :: b in blocks ==> b.id != id then
                e.MissingBlock? && e.block in procedure.blocks && forall b :: b in blocks ==> b.id != e.block
              else if exists id :: id in procedure.values && forall v :: v in values ==> v.id != id then
                e.MissingValue? && e.value in procedure.values && forall v :: v in values ==> v.id != e.value
              else ErrorHolds(e, blocks, values)
  {
    BlocksFromError(blocks, values, 0);
    ValuesFromError(blocks, values, 0);
  }

  // ---- The graphs the algorithms work on ----

  function SuccessorGraph(blocks: seq<Block>): (g: Graph) {
    map id | id in Elements(BlockIds(blocks)) && FindBlock(blocks, id).Some? ::
      FindBlock(blocks, id).value.successors
  }

  /** The edges lead from a block, the first with its id, to its successors. */
  lemma SuccessorEdges(blocks: seq<Block>, u: BlockId, v: BlockId)
    ensures Edge(SuccessorGraph(blocks), u, v) <==>
      exists k :: 0 <= k < |blocks| && blocks[k].id == u && (forall j :: 0 <= j < k ==> blocks[j].id != u) &&
                  v in blocks[k].successors
  {
    SuccessorGraphDomain(blocks, u);
    FindBlockFirst(blocks, u);
  }

  lemma {:induction false} FindBlockFirst(blocks: seq<Block>, id: BlockId)
    ensures FindBlock(blocks, id).None? ==> forall k :: 0 <= k < |blocks| ==> blocks[k].id != id
    ensures FindBlock(blocks, id).Some? ==>
      exists k :: 0 <= k < |blocks| && blocks[k].id == id && (forall j :: 0 <= j < k ==> blocks[j].id != id) &&
                  FindBlock(blocks, id).value == blocks[k]
  {
    if blocks != [] && blocks[0].id != id {
      FindBlockFirst(blocks[1..], id);
      if FindBlock(blocks, id).Some? {
        var k :| 0 <= k < |blocks[1..]| && blocks[1..][k].id == id &&
          (forall j :: 0 <= j < k ==> blocks[1..][j].id != id) && FindBlock(blocks, id).value == blocks[1..][k];
        assert blocks[k + 1].id == id && forall j :: 0 <= j < k + 1 ==> blocks[j].id != id;
      } else {
        assert forall k :: 0 < k < |blocks| ==> blocks[k] == blocks[1..][k - 1];
      }
    }
  }

  lemma SuccessorGraphDomain(blocks: seq<Block>, id: BlockId)
    ensures id in SuccessorGraph(blocks) <==> HasBlock(blocks, id)
    ensures HasBlock(blocks, id) ==> SuccessorGraph(blocks)[id] == FindBlock(blocks, id).value.successors
  {
    if HasBlock(blocks, id) {
      var b :| b in blocks && b.id == id;
      var i :| 0 <= i < |blocks| && blocks[i] == b;
      assert BlockIds(blocks)[i] == id;
      assert id in Elements(BlockIds(blocks));
    }
  }
}
