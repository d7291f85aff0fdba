/** Label, jump and call tokens: offsets captured while code is emitted. */
module Labels {
  import opened Instructions
  import opened LinkRecords

  type U32 = x: int | 0 <= x < 0x1_0000_0000

  /** A byte offset into the code, or the unset sentinel. */
  type AssemblerLabel = U32

  const UNSET: AssemblerLabel := 0xffff_ffff

  predicate IsSet(at: AssemblerLabel) {
    at != UNSET
  }

  datatype JumpToken = JumpToken(at: AssemblerLabel, jumpType: JumpType, condition: Condition) {

    predicate IsSetToken() {
      IsSet(at)
    }

    function ToLinkRecord(target: AssemblerLabel): LinkRecord {
      NewJump(at, target, jumpType, condition)
    }
  }

  datatype CallFlags = NoFlags | LinkableNear

  datatype CallToken = CallToken(at: AssemblerLabel, flags: CallFlags) {

    function ToLinkRecord(target: AssemblerLabel): LinkRecord {
      NewCall(at, target)
    }
  }

  /** One record per jump, in order. */
  function ToLinkRecords(jumps: seq<JumpToken>, target: AssemblerLabel): (records: seq<LinkRecord>)
    ensures |records| == |jumps|
    ensures forall k :: 0 <= k < |jumps| ==>
      records[k].from == jumps[k].at && records[k].to == target && records[k].jumpType == jumps[k].jumpType &&
      records[k].condition == jumps[k].condition && records[k].branchKind == Jmp
  {
    seq(|jumps|, k requires 0 <= k < |jumps| => jumps[k].ToLinkRecord(target))
  }

  /** Jumps that all go to the same place. */
  class JumpList {
    var jumps: seq<JumpToken>

    constructor ()
      ensures jumps == []
    {
      jumps := [];
    }

    /** An unset jump is dropped. */
    constructor FromJump(jump: JumpToken)
      ensures jumps == if jump.at == 0xffff_ffff then [] else [jump]
    {
      jumps := if jump.IsSetToken() then [jump] else [];
    }

    method Append(jump: JumpToken)
      modifies this
      ensures jumps == old(jumps) + [jump]
    {
      jumps := jumps + [jump];
    }

    method AppendList(other: JumpList)
      modifies this
      ensures jumps == old(jumps) + old(other.jumps)
    {
      jumps := jumps + other.jumps;
    }

    method LinkTo(target: AssemblerLabel) returns (records: seq<LinkRecord>)
      ensures records == ToLinkRecords(jumps, target)
    {
      records := [];
      var k := 0;
      while k < |jumps|
        invariant 0 <= k <= |jumps|
        invariant records == ToLinkRecords(jumps, target)[..k]
      {
        records := records + [jumps[k].ToLinkRecord(target)];
        k := k + 1;
      }
    }
  }
}
