/** Linking a whole program: every record in turn, in place. */
module Linking {
  import opened Wrappers
  import opened Instructions
  import opened CodeBuffer
  import opened Patches
  import opened LinkRecords
  import opened Labels

  function LinkAll(records: seq<LinkRecord>, code: Code): Result<Code, Arm64LinkError> {
    if records == [] then Ok(code)
    else
      var linked :- Link(records[0], code);
      LinkAll(records[1..], linked)
  }

  /** The distances the patcher can encode. */
  predicate InRange(r: LinkRecord) {
    r.to % 4 == 0 &&
    if Conditional(r) then -0x10_0000 <= r.to - r.from < 0x10_0000 else -0x800_0000 <= r.to - r.from < 0x800_0000
  }

  /** The record names a placeholder of the program, of its own kind and condition. */
  predicate NamesSite(r: LinkRecord, program: seq<Instr>) {
    && !r.isThunk && r.from % 4 == 0 && 0 <= r.from < 4 * |program|
    && if Conditional(r) then
         var i := program[r.from / 4];
         i.BranchConditional? && i.cond == r.condition && r.condition != Condition.Invalid
       else
         var i := program[r.from / 4];
         Unconditional(r) && i.Branch? && i.link == (r.branchKind == Call)
  }

  ghost predicate NameSites(records: seq<LinkRecord>, program: seq<Instr>) {
    forall r :: r in records ==> NamesSite(r, program)
  }

  /** The program with its branch at the record's site going to the record's target. */
  function Retarget(r: LinkRecord, program: seq<Instr>): (retargeted: seq<Instr>)
    requires 0 <= r.from < 4 * |program|
    ensures |retargeted| == |program|
  {
    program[r.from / 4 := LinkedInstr(r)]
  }

  function RetargetAll(records: seq<LinkRecord>, program: seq<Instr>): (retargeted: seq<Instr>)
    requires forall r :: r in records ==> 0 <= r.from < 4 * |program|
    ensures |retargeted| == |program|
  {
    if records == [] then program else RetargetAll(records[1..], Retarget(records[0], program))
  }

  lemma LinkOne(r: LinkRecord, program: seq<Instr>)
    requires LegalProgram(program) && NamesSite(r, program)
    ensures Link(r, EncodeAll(program)).Ok? <==> InRange(r)
    ensures InRange(r) ==> Link(r, EncodeAll(program)) == Ok(EncodeAll(Retarget(r, program)))
    ensures InRange(r) ==> Legal(LinkedInstr(r))
  {
    EncodeAllLength(program);
    if Conditional(r) {
      ConditionalLinks(r, EncodeAll(program));
    } else {
      UnconditionalLinks(r, EncodeAll(program));
    }
    if InRange(r) {
      LinkPatches(r, EncodeAll(program));
      PatchEncoded(program, r.from / 4, LinkedInstr(r));
    }
  }

  lemma RetargetKeeps(r: LinkRecord, program: seq<Instr>, records: seq<LinkRecord>)
    requires LegalProgram(program) && NamesSite(r, program) && NameSites(records, program) && Legal(LinkedInstr(r))
    ensures LegalProgram(Retarget(r, program)) && NameSites(records, Retarget(r, program))
  {
  }

  /** Linking the code of a program gives the code of the retargeted program: every site goes to its
      target and every other word is what was emitted. */
  lemma {:induction false} LinkAllRetargets(records: seq<LinkRecord>, program: seq<Instr>)
    requires LegalProgram(program) && NameSites(records, program)
    ensures LinkAll(records, EncodeAll(program)).Ok? <==> forall r :: r in records ==> InRange(r)
    ensures LinkAll(records, EncodeAll(program)).Ok? ==>
      && LinkAll(records, EncodeAll(program)) == Ok(EncodeAll(RetargetAll(records, program)))
      && LegalProgram(RetargetAll(records, program))
  {
    if records != [] {
      var r := records[0];
      LinkOne(r, program);
      if InRange(r) {
        RetargetKeeps(r, program, records[1..]);
        LinkAllRetargets(records[1..], Retarget(r, program));
      }
      assert records == [r] + records[1..];
    }
  }

  predicate DistinctSites(records: seq<LinkRecord>) {
    forall i, j :: 0 <= i < j < |records| ==> records[i].from != records[j].from
  }

  /** With distinct sites, each one holds its own record's branch and everything else is as before. */
  lemma {:induction false} RetargetedWords(records: seq<LinkRecord>, program: seq<Instr>, k: nat)
    requires DistinctSites(records) && k < |program|
    requires forall r :: r in records ==> 0 <= r.from < 4 * |program| && r.from % 4 == 0
    ensures forall j :: 0 <= j < |records| && records[j].from == 4 * k ==>
      RetargetAll(records, program)[k] == LinkedInstr(records[j])
    ensures (forall j :: 0 <= j < |records| ==> records[j].from != 4 * k) ==>
      RetargetAll(records, program)[k] == program[k]
    decreases records
  {
    if records != [] {
      var rest := records[1..];
      assert forall j :: 0 <= j < |rest| ==> rest[j] == records[j + 1];
      RetargetedWords(rest, Retarget(records[0], program), k);
    }
  }

  // ---- Any records, on any code ----

  /** Whether a record links depends on the code's length only. */
  lemma LinkDependsOnLength(r: LinkRecord, a: Code, b: Code)
    requires |a| == |b|
    ensures Link(r, a).Ok? <==> Link(r, b).Ok?
  {
    if Conditional(r) {
      DirectExact(a, r.from, r.to, r.condition);
      DirectExact(b, r.from, r.to, r.condition);
    } else {
      JumpOrCallExact(a, r.from, r.to, r.branchKind == Call);
      JumpOrCallExact(b, r.from, r.to, r.branchKind == Call);
    }
  }

  ghost predicate AllLink(records: seq<LinkRecord>, code: Code) {
    forall k :: 0 <= k < |records| ==> Link(records[k], code).Ok?
  }

  /** The words that records write. */
  function PatchesOf(records: seq<LinkRecord>): (ps: seq<Patch>)
    requires forall k :: 0 <= k < |records| ==> records[k].from >= 0
    ensures |ps| == |records|
    ensures forall k :: 0 <= k < |records| ==> ps[k] == Patch(records[k].from, LinkedInstr(records[k]))
  {
    seq(|records|, k requires 0 <= k < |records| => Patch(records[k].from, LinkedInstr(records[k])))
  }

  lemma LinkedOne(r: LinkRecord, code: Code)
    requires Link(r, code).Ok?
    ensures r.from >= 0 && Fits(Patch(r.from, LinkedInstr(r)), |code|)
    ensures Link(r, code) == Ok(PatchOne(code, Patch(r.from, LinkedInstr(r))))
  {
    LinkPatches(r, code);
    if Conditional(r) {
      ConditionalPatches(r, code);
    } else {
      UnconditionalPatches(r, code);
    }
  }

  /** Records link one after the other exactly when each links, and then patch their words in order. */
  lemma {:induction false} LinkAllPatches(records: seq<LinkRecord>, code: Code)
    ensures LinkAll(records, code).Ok? <==> AllLink(records, code)
    ensures LinkAll(records, code).Ok? ==>
      && (forall k :: 0 <= k < |records| ==> records[k].from >= 0) && AllFit(PatchesOf(records), |code|)
      && LinkAll(records, code) == Ok(PatchAll(code, PatchesOf(records)))
    decreases records
  {
    if records != [] {
      var first, rest := records[0], records[1..];
      if Link(first, code).Ok? {
        LinkedOne(first, code);
        var linked := Link(first, code).value;
        LinkAllPatches(rest, linked);
        forall k | 0 <= k < |rest| ensures Link(rest[k], linked).Ok? <==> Link(records[k + 1], code).Ok? {
          LinkDependsOnLength(rest[k], linked, code);
        }
        if LinkAll(rest, linked).Ok? {
          assert PatchesOf(records)[1..] == PatchesOf(rest);
        }
      }
    }
  }

  // ---- Jump lists ----

  /** What linking a jump of a list needs: an aligned site within the code, and an aligned target that its form
      can reach. */
  predicate Reaches(jump: JumpToken, target: AssemblerLabel, length: nat) {
    && jump.at % 4 == 0 && jump.at + 4 <= length && target % 4 == 0
    && match jump.jumpType
       case JumpCondition => -0x10_0000 <= target - jump.at < 0x10_0000
       case JumpNoCondition => -0x800_0000 <= target - jump.at < 0x800_0000
       case JumpNoConditionFixedSize => -0x800_0000 <= target - jump.at < 0x800_0000
       case _ => false
  }

  /** The branch of a jump to a place so many words further on. */
  function BranchOf(jump: JumpToken, distance: int): Instr {
    if jump.jumpType == JumpCondition then BranchConditional(jump.condition, distance) else Branch(false, distance)
  }

  /** The jump's site holds its own form of branch to `target`. */
  ghost predicate JumpsTo(code: Code, jump: JumpToken, target: int) {
    (target - jump.at) % 4 == 0 && DecodeAt(code, jump.at) == Some(BranchOf(jump, (target - jump.at) / 4))
  }

  /** No later jump of the list is for the same site. */
  predicate LastJump(jumps: seq<JumpToken>, k: nat) {
    k < |jumps| && forall j :: k < j < |jumps| ==> jumps[j].at != jumps[k].at
  }

  ghost predicate OutsideSites(jumps: seq<JumpToken>, at: int) {
    forall k :: 0 <= k < |jumps| ==> !(jumps[k].at <= at < jumps[k].at + 4)
  }

  lemma JumpLinks(jump: JumpToken, target: AssemblerLabel, code: Code)
    ensures Link(jump.ToLinkRecord(target), code).Ok? <==> Reaches(jump, target, |code|)
  {
    var r := jump.ToLinkRecord(target);
    if Conditional(r) {
      ConditionalLinks(r, code);
    } else if Unconditional(r) {
      UnconditionalLinks(r, code);
    } else {
      OthersRefused(r, code);
    }
  }

  /** Linking a list of jumps succeeds exactly when each reaches the common target. */
  lemma JumpListLinks(jumps: seq<JumpToken>, target: AssemblerLabel, code: Code)
    ensures LinkAll(ToLinkRecords(jumps, target), code).Ok? <==>
      forall k :: 0 <= k < |jumps| ==> Reaches(jumps[k], target, |code|)
  {
    var records := ToLinkRecords(jumps, target);
    LinkAllPatches(records, code);
    forall k | 0 <= k < |jumps| ensures Link(records[k], code).Ok? <==> Reaches(jumps[k], target, |code|) {
      JumpLinks(jumps[k], target, code);
    }
  }

  /** Then every site of the list, however often it is listed, holds the branch of its last jump, to exactly that
      target. Every byte outside the sites is as it was. */
  lemma JumpListGoesToTarget(jumps: seq<JumpToken>, target: AssemblerLabel, code: Code)
    requires LinkAll(ToLinkRecords(jumps, target), code).Ok?
    requires forall k :: 0 <= k < |jumps| && jumps[k].jumpType == JumpCondition ==>
      jumps[k].condition != Condition.Invalid
    ensures var linked := LinkAll(ToLinkRecords(jumps, target), code).value;
            && |linked| == |code|
            && (forall k: nat :: LastJump(jumps, k) ==> JumpsTo(linked, jumps[k], target))
            && (forall at :: 0 <= at < |code| && OutsideSites(jumps, at) ==> linked[at] == code[at])
  {
    var records := ToLinkRecords(jumps, target);
    var ps := PatchesOf(records);
    LinkAllPatches(records, code);
    var linked := LinkAll(records, code).value;
    forall k | 0 <= k < |jumps| ensures JumpPatch(jumps[k], target, ps[k]) {
      JumpPatched(jumps, target, code, k);
    }
    PatchedJumps(code, ps, jumps, target);
    forall at | 0 <= at < |code| && OutsideSites(jumps, at)
      ensures linked[at] == code[at]
    {
      PatchAllElsewhere(code, ps, at);
    }
  }

  /** The word that linking writes for a jump of the list. */
  predicate JumpPatch(jump: JumpToken, target: AssemblerLabel, p: Patch) {
    && p == Patch(jump.at, BranchOf(jump, (target - jump.at) / 4)) && Legal(p.instr) && (target - jump.at) % 4 == 0
  }

  lemma JumpPatched(jumps: seq<JumpToken>, target: AssemblerLabel, code: Code, k: nat)
    requires AllLink(ToLinkRecords(jumps, target), code) && k < |jumps|
    requires jumps[k].jumpType == JumpCondition ==> jumps[k].condition != Condition.Invalid
    ensures JumpPatch(jumps[k], target, Patch(jumps[k].at, LinkedInstr(ToLinkRecords(jumps, target)[k])))
  {
    var r := ToLinkRecords(jumps, target)[k];
    LinkPatches(r, code);
    LinkedIsAligned(r, code);
    DistanceInWords(r);
  }

  lemma PatchedJump(code: Code, ps: seq<Patch>, k: nat, jump: JumpToken, target: AssemblerLabel)
    requires AllFit(ps, |code|) && IsLast(ps, k) && JumpPatch(jump, target, ps[k])
    ensures JumpsTo(PatchAll(code, ps), jump, target)
  {
    LastWins(code, ps, k);
    WordOfBytes(PatchAll(code, ps), ps[k]);
  }

  lemma PatchedJumps(code: Code, ps: seq<Patch>, jumps: seq<JumpToken>, target: AssemblerLabel)
    requires AllFit(ps, |code|) && |ps| == |jumps|
    requires forall k :: 0 <= k < |jumps| ==> JumpPatch(jumps[k], target, ps[k])
    ensures forall k: nat :: LastJump(jumps, k) ==> JumpsTo(PatchAll(code, ps), jumps[k], target)
  {
    forall k: nat | LastJump(jumps, k) ensures JumpsTo(PatchAll(code, ps), jumps[k], target) {
      assert IsLast(ps, k);
      PatchedJump(code, ps, k, jumps[k], target);
    }
  }

  /** The unset offset is misaligned: a list with an unset jump never links, which is why making a list of one
      drops it. */
  lemma UnsetJumpNeverLinks(jumps: seq<JumpToken>, target: AssemblerLabel, code: Code, k: nat)
    requires k < |jumps| && jumps[k].at == 0xffff_ffff
    ensures LinkAll(ToLinkRecords(jumps, target), code).Err?
  {
    JumpListLinks(jumps, target, code);
  }

  /** A list absorbed into another links as the two lists in turn. */
  lemma {:induction false} LinkedInTurn(a: seq<LinkRecord>, b: seq<LinkRecord>, code: Code)
    ensures LinkAll(a + b, code) ==
      match LinkAll(a, code) case Ok(linked) => LinkAll(b, linked) case Err(error) => Err(error)
    decreases a
  {
    if a == [] {
      assert a + b == b;
    } else {
      assert (a + b)[0] == a[0] && (a + b)[1..] == a[1..] + b;
      if Link(a[0], code).Ok? {
        LinkedInTurn(a[1..], b, Link(a[0], code).value);
      }
    }
  }
}
