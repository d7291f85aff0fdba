/** Relocations of a frozen code image: ordering them, and patching each one's word. */
module Relocations {
  import opened Wrappers
  import opened Instructions
  import opened Encoder
  import opened CodeBuffer
  import opened Patches
  import opened LinkRecords
  import opened Labels

  datatype AssemblerArchitecture = X86 | X86_64 | Arm64 | Riscv64 | Unknown

  datatype RelocationKind =
    | CodeLabel | DataLabel | CompactDataLabel | PointerDataLabel | NearCall | FarCall | Jump | PatchableJump
    | ConvertibleLoad | AbsolutePointer | ExternalReference

  datatype Relocation = Relocation(kind: RelocationKind, atOffset: U32, target: Option<AssemblerLabel>)

  datatype RelocationError =
    | ApplicationUnsupported(kind: RelocationKind)
    | MissingTarget(kind: RelocationKind)
    | Arm64Failed(atOffset: U32, cause: Arm64LinkError)

  predicate IsJump(kind: RelocationKind) {
    kind == Jump || kind == PatchableJump
  }

  predicate IsCall(kind: RelocationKind) {
    kind == NearCall || kind == FarCall
  }

  // ---- Ordering ----

  ghost predicate Ordered(rs: seq<Relocation>) {
    forall i, j :: 0 <= i < j < |rs| ==> rs[i].atOffset <= rs[j].atOffset
  }

  function InsertByOffset(r: Relocation, rs: seq<Relocation>): (inserted: seq<Relocation>)
    ensures multiset(inserted) == multiset(rs) + multiset{r}
  {
    if rs == [] || r.atOffset <= rs[0].atOffset then [r] + rs
    else
      assert rs == [rs[0]] + rs[1..];
      [rs[0]] + InsertByOffset(r, rs[1..])
  }

  lemma OrderedCons(r: Relocation, rs: seq<Relocation>)
    requires Ordered(rs) && forall x :: x in rs ==> r.atOffset <= x.atOffset
    ensures Ordered([r] + rs)
  {
    var all := [r] + rs;
    forall i, j | 0 <= i < j < |all|
      ensures all[i].atOffset <= all[j].atOffset
    {
      assert all[j] == rs[j - 1] && rs[j - 1] in rs;
      if i > 0 {
        assert all[i] == rs[i - 1];
      }
    }
  }

  lemma {:induction false} InsertOrdered(r: Relocation, rs: seq<Relocation>)
    requires Ordered(rs)
    ensures Ordered(InsertByOffset(r, rs))
  {
    if rs != [] && rs[0].atOffset < r.atOffset {
      var rest := InsertByOffset(r, rs[1..]);
      InsertOrdered(r, rs[1..]);
      forall x | x in rest
        ensures rs[0].atOffset <= x.atOffset
      {
        assert x in multiset(rest);
        assert x in multiset(rs[1..]) || x == r;
      }
      OrderedCons(rs[0], rest);
    } else {
      forall x | x in rs
        ensures r.atOffset <= x.atOffset
      {
        assert rs[0].atOffset <= x.atOffset;
      }
      OrderedCons(r, rs);
    }
  }

  /** The stable sort by site: an earlier entry is inserted in front of later ones at the same offset. */
  function SortByOffset(rs: seq<Relocation>): (sorted: seq<Relocation>)
    ensures multiset(sorted) == multiset(rs) && Ordered(sorted) && |sorted| == |rs|
  {
    if rs == [] then []
    else
      assert rs == [rs[0]] + rs[1..];
      var rest := SortByOffset(rs[1..]);
      InsertOrdered(rs[0], rest);
      var sorted := InsertByOffset(rs[0], rest);
      assert |multiset(sorted)| == |sorted| && |multiset(rs)| == |rs|;
      sorted
  }

  /** The entries at one site, in order. */
  function AtSite(rs: seq<Relocation>, at: int): seq<Relocation> {
    if rs == [] then [] else (if rs[0].atOffset == at then [rs[0]] else []) + AtSite(rs[1..], at)
  }

  lemma {:induction false} InsertStable(r: Relocation, rs: seq<Relocation>, at: int)
    ensures AtSite(InsertByOffset(r, rs), at) == (if r.atOffset == at then [r] else []) + AtSite(rs, at)
  {
    if rs == [] || r.atOffset <= rs[0].atOffset {
      assert ([r] + rs)[1..] == rs;
    } else {
      InsertStable(r, rs[1..], at);
      var rest := InsertByOffset(r, rs[1..]);
      assert ([rs[0]] + rest)[1..] == rest;
    }
  }

  /** The sort is stable: the entries at each site keep their order. */
  lemma {:induction false} SortStable(rs: seq<Relocation>, at: int)
    ensures AtSite(SortByOffset(rs), at) == AtSite(rs, at)
  {
    if rs != [] {
      SortStable(rs[1..], at);
      InsertStable(rs[0], SortByOffset(rs[1..]), at);
    }
  }

  ghost predicate DistinctOffsets(rs: seq<Relocation>) {
    forall i, j :: 0 <= i < j < |rs| ==> rs[i].atOffset != rs[j].atOffset
  }

  lemma {:induction false} AtMostOnce(rs: seq<Relocation>, r: Relocation)
    requires DistinctOffsets(rs)
    ensures multiset(rs)[r] <= 1
  {
    if rs != [] {
      AtMostOnce(rs[1..], r);
      assert rs == [rs[0]] + rs[1..];
      assert rs[0] !in rs[1..];
    }
  }

  lemma DifferentEntries(rs: seq<Relocation>, i: nat, j: nat)
    requires i < j < |rs| && multiset(rs)[rs[j]] <= 1
    ensures rs[i] != rs[j]
  {
    assert rs == rs[..j] + rs[j..];
    assert rs[j..][0] == rs[j] && rs[j] in multiset(rs[j..]);
    assert multiset(rs)[rs[j]] == multiset(rs[..j])[rs[j]] + multiset(rs[j..])[rs[j]];
    assert rs[..j][i] == rs[i] && rs[i] in multiset(rs[..j]);
  }

  lemma SameOffsetSameEntry(rs: seq<Relocation>, x: Relocation, y: Relocation)
    requires DistinctOffsets(rs) && x in multiset(rs) && y in multiset(rs) && x.atOffset == y.atOffset
    ensures x == y
  {
    var k :| 0 <= k < |rs| && rs[k] == x;
    var l :| 0 <= l < |rs| && rs[l] == y;
    assert k == l;
  }

  lemma DistinctPermuted(a: seq<Relocation>, b: seq<Relocation>)
    requires multiset(a) == multiset(b) && DistinctOffsets(a)
    ensures DistinctOffsets(b)
  {
    forall i, j | 0 <= i < j < |b|
      ensures b[i].atOffset != b[j].atOffset
    {
      AtMostOnce(a, b[j]);
      DifferentEntries(b, i, j);
      assert b[i] in multiset(b) && b[j] in multiset(b);
      if b[i].atOffset == b[j].atOffset {
        SameOffsetSameEntry(a, b[i], b[j]);
      }
    }
  }

  lemma SameFirst(a: seq<Relocation>, b: seq<Relocation>)
    requires Ordered(a) && Ordered(b) && multiset(a) == multiset(b) && DistinctOffsets(a) && a != [] && b != []
    ensures a[0] == b[0] && multiset(a[1..]) == multiset(b[1..])
  {
    var i := ListedElsewhere(b, a, 0);
    var j := ListedElsewhere(a, b, 0);
    assert a[0].atOffset <= a[i].atOffset && b[0].atOffset <= b[j].atOffset;
    assert a[0] in multiset(a) && a[i] in multiset(a);
    SameOffsetSameEntry(a, a[0], b[0]);
    WithoutFirst(a);
    WithoutFirst(b);
  }

  lemma WithoutFirst(rs: seq<Relocation>)
    requires rs != []
    ensures multiset(rs[1..]) == multiset(rs) - multiset{rs[0]}
  {
    assert rs == [rs[0]] + rs[1..];
  }

  lemma {:induction false} OrderedUnique(a: seq<Relocation>, b: seq<Relocation>)
    requires Ordered(a) && Ordered(b) && multiset(a) == multiset(b) && DistinctOffsets(a)
    ensures a == b
  {
    assert |multiset(a)| == |a| && |multiset(b)| == |b|;
    if a != [] {
      SameFirst(a, b);
      OrderedUnique(a[1..], b[1..]);
      assert a == [a[0]] + a[1..] && b == [b[0]] + b[1..];
    }
  }

  /** Permuting relocations with distinct sites does not change the order they are applied in. */
  lemma SortPermuted(a: seq<Relocation>, b: seq<Relocation>)
    requires multiset(a) == multiset(b) && DistinctOffsets(a)
    ensures SortByOffset(a) == SortByOffset(b)
  {
    DistinctPermuted(a, SortByOffset(a));
    OrderedUnique(SortByOffset(a), SortByOffset(b));
  }

  // ---- Application ----

  function ApplyCodeRelocation(code: Code, architecture: Option<AssemblerArchitecture>, r: Relocation)
    : Result<Code, RelocationError>
  {
    if architecture != Some(Arm64) then Err(ApplicationUnsupported(r.kind))
    else if !IsJump(r.kind) && !IsCall(r.kind) then Err(ApplicationUnsupported(r.kind))
    else if r.target.None? then Err(MissingTarget(r.kind))
    else match LinkJumpOrCall(code, r.atOffset, r.target.value, IsCall(r.kind))
      case Ok(patched) => Ok(patched)
      case Err(cause) => Err(Arm64Failed(r.atOffset, cause))
  }

  function ApplyAll(code: Code, architecture: Option<AssemblerArchitecture>, rs: seq<Relocation>)
    : Result<Code, RelocationError>
    decreases rs
  {
    if rs == [] then Ok(code)
    else
      var patched :- ApplyCodeRelocation(code, architecture, rs[0]);
      ApplyAll(patched, architecture, rs[1..])
  }

  /** What a relocation must satisfy to be applied to code of the given length. */
  predicate Applicable(r: Relocation, length: nat) {
    && (r.kind == Jump || r.kind == PatchableJump || r.kind == NearCall || r.kind == FarCall) && r.target.Some?
    && r.atOffset % 4 == 0 && r.target.value % 4 == 0 && r.atOffset + 4 <= length
    && -0x800_0000 <= r.target.value - r.atOffset < 0x800_0000
  }

  /** What a relocation leaves at its site: a `b` for a jump and a `bl` for a call, to exactly its target. */
  ghost predicate Relocated(code: Code, r: Relocation) {
    && r.target.Some? && (r.target.value - r.atOffset) % 4 == 0
    && var distance := (r.target.value - r.atOffset) / 4;
       match r.kind
       case Jump => DecodeAt(code, r.atOffset) == Some(Branch(false, distance))
       case PatchableJump => DecodeAt(code, r.atOffset) == Some(Branch(false, distance))
       case NearCall => DecodeAt(code, r.atOffset) == Some(Branch(true, distance))
       case FarCall => DecodeAt(code, r.atOffset) == Some(Branch(true, distance))
       case _ => false
  }

  function RelocatedBranch(r: Relocation): Instr
    requires r.target.Some?
  {
    Branch(IsCall(r.kind), (r.target.value - r.atOffset) / 4)
  }

  lemma ApplyOne(code: Code, architecture: Option<AssemblerArchitecture>, r: Relocation)
    ensures ApplyCodeRelocation(code, architecture, r).Ok? <==> architecture == Some(Arm64) && Applicable(r, |code|)
    ensures ApplyCodeRelocation(code, architecture, r).Ok? ==>
      Applied(code, r, ApplyCodeRelocation(code, architecture, r).value)
  {
    if r.target.Some? {
      BranchApplied(code, r);
    }
  }

  /** One relocation patches one word, with a legal branch to exactly its target. */
  ghost predicate Applied(code: Code, r: Relocation, patched: Code) {
    && r.target.Some? && r.atOffset + 4 <= |code| && Legal(RelocatedBranch(r))
    && patched == PatchWord(code, r.atOffset, Encode(RelocatedBranch(r)))
    && BranchTarget(RelocatedBranch(r), r.atOffset) == r.target.value
  }

  lemma BranchApplied(code: Code, r: Relocation)
    requires r.target.Some?
    ensures var linked := LinkJumpOrCall(code, r.atOffset, r.target.value, IsCall(r.kind));
            && (linked.Ok? <==> r.atOffset % 4 == 0 && r.target.value % 4 == 0 && r.atOffset + 4 <= |code| &&
                                -0x800_0000 <= r.target.value - r.atOffset < 0x800_0000)
            && (linked.Ok? ==> Applied(code, r, linked.value))
  {
    JumpOrCallExact(code, r.atOffset, r.target.value, IsCall(r.kind));
  }

  /** The whole list is applied exactly when each of its entries can be. */
  lemma {:induction false} ApplyAllExact(code: Code, architecture: Option<AssemblerArchitecture>, rs: seq<Relocation>)
    ensures ApplyAll(code, architecture, rs).Ok? <==>
      rs == [] || (architecture == Some(Arm64) && forall k :: 0 <= k < |rs| ==> Applicable(rs[k], |code|))
    ensures ApplyAll(code, architecture, rs).Ok? ==> |ApplyAll(code, architecture, rs).value| == |code|
    decreases rs
  {
    if rs != [] {
      ApplyOne(code, architecture, rs[0]);
      if ApplyCodeRelocation(code, architecture, rs[0]).Ok? {
        ApplyAllExact(ApplyCodeRelocation(code, architecture, rs[0]).value, architecture, rs[1..]);
      }
      assert forall k :: 0 <= k < |rs[1..]| ==> rs[1..][k] == rs[k + 1];
    }
  }

  /** What each error says of the relocation. */
  predicate RelocationErrorHolds(error: RelocationError, r: Relocation, architecture: Option<AssemblerArchitecture>,
                                 length: nat)
  {
    var branch := r.kind == Jump || r.kind == PatchableJump || r.kind == NearCall || r.kind == FarCall;
    match error
    case ApplicationUnsupported(kind) => kind == r.kind && !(architecture == Some(Arm64) && branch)
    case MissingTarget(kind) => kind == r.kind && branch && r.target.None?
    case Arm64Failed(atOffset, cause) =>
      && atOffset == r.atOffset && branch && r.target.Some?
      && match cause
         case Misaligned(at) => at % 4 != 0 && (at == r.atOffset || at == r.target.value)
         case OutOfRange(words, fieldBits) =>
           fieldBits == 26 && r.atOffset + 4 * words == r.target.value && !(-0x200_0000 <= words < 0x200_0000)
         case OutOfBounds(at, len) => at == r.atOffset && len == length && at + 4 > len
         case _ => false
  }

  lemma ErrorHolds(code: Code, architecture: Option<AssemblerArchitecture>, r: Relocation)
    requires ApplyCodeRelocation(code, architecture, r).Err?
    ensures RelocationErrorHolds(ApplyCodeRelocation(code, architecture, r).error, r, architecture, |code|)
  {
    if r.target.Some? && LinkJumpOrCall(code, r.atOffset, r.target.value, IsCall(r.kind)).Err? {
      JumpOrCallErrors(code, r.atOffset, r.target.value, IsCall(r.kind));
    }
  }

  /** The list fails at entry `k`, the first that cannot be applied, with an error that tells the truth of it. */
  ghost predicate FailsAt(error: RelocationError, architecture: Option<AssemblerArchitecture>, rs: seq<Relocation>,
                          length: nat, k: nat)
  {
    && k < |rs| && (forall j :: 0 <= j < k ==> architecture == Some(Arm64) && Applicable(rs[j], length))
    && !(architecture == Some(Arm64) && Applicable(rs[k], length))
    && RelocationErrorHolds(error, rs[k], architecture, length)
  }

  lemma FailsLater(error: RelocationError, architecture: Option<AssemblerArchitecture>, rs: seq<Relocation>,
                   length: nat, k: nat)
    requires rs != [] && architecture == Some(Arm64) && Applicable(rs[0], length)
    requires FailsAt(error, architecture, rs[1..], length, k)
    ensures FailsAt(error, architecture, rs, length, k + 1)
  {
    forall j | 0 < j <= k ensures Applicable(rs[j], length) {
      assert rs[1..][j - 1] == rs[j];
    }
    assert rs[1..][k] == rs[k + 1];
  }

  lemma {:induction false} ApplyAllError(code: Code, architecture: Option<AssemblerArchitecture>, rs: seq<Relocation>)
    returns (k: nat)
    requires ApplyAll(code, architecture, rs).Err?
    ensures FailsAt(ApplyAll(code, architecture, rs).error, architecture, rs, |code|, k)
    decreases rs
  {
    var first := ApplyCodeRelocation(code, architecture, rs[0]);
    ApplyOne(code, architecture, rs[0]);
    if first.Err? {
      ErrorHolds(code, architecture, rs[0]);
      k := 0;
    } else {
      assert |first.value| == |code|;
      var rest := ApplyAllError(first.value, architecture, rs[1..]);
      FailsLater(ApplyAll(code, architecture, rs).error, architecture, rs, |code|, rest);
      k := rest + 1;
    }
  }

  // ---- The list as patches ----

  /** The words a list of relocations writes. */
  function PatchesOf(rs: seq<Relocation>): (ps: seq<Patch>)
    requires forall k :: 0 <= k < |rs| ==> rs[k].target.Some?
    ensures |ps| == |rs|
    ensures forall k :: 0 <= k < |rs| ==> ps[k] == Patch(rs[k].atOffset, RelocatedBranch(rs[k]))
  {
    seq(|rs|, k requires 0 <= k < |rs| => Patch(rs[k].atOffset, RelocatedBranch(rs[k])))
  }

  ghost predicate AllApplicable(rs: seq<Relocation>, length: nat) {
    forall k :: 0 <= k < |rs| ==> Applicable(rs[k], length)
  }

  /** Applying a list is patching its words one after the other. */
  lemma {:induction false} ApplyAllPatches(code: Code, rs: seq<Relocation>)
    requires AllApplicable(rs, |code|)
    ensures AllFit(PatchesOf(rs), |code|)
    ensures ApplyAll(code, Some(Arm64), rs) == Ok(PatchAll(code, PatchesOf(rs)))
    decreases rs
  {
    if rs != [] {
      ApplyOne(code, Some(Arm64), rs[0]);
      ApplyAllPatches(PatchOne(code, Patch(rs[0].atOffset, RelocatedBranch(rs[0]))), rs[1..]);
      assert PatchesOf(rs)[1..] == PatchesOf(rs[1..]);
    }
  }

  lemma AppliedPatches(code: Code, architecture: Option<AssemblerArchitecture>, rs: seq<Relocation>)
    requires ApplyAll(code, architecture, rs).Ok?
    ensures AllApplicable(rs, |code|) || rs == []
    ensures forall k :: 0 <= k < |rs| ==> rs[k].target.Some?
    ensures AllFit(PatchesOf(rs), |code|) && ApplyAll(code, architecture, rs) == Ok(PatchAll(code, PatchesOf(rs)))
  {
    ApplyAllExact(code, architecture, rs);
    if rs != [] {
      ApplyAllPatches(code, rs);
    }
  }

  /** Bytes outside every site are those of the image. */
  lemma ApplyAllElsewhere(code: Code, architecture: Option<AssemblerArchitecture>, rs: seq<Relocation>, at: nat)
    requires ApplyAll(code, architecture, rs).Ok? && at < |code|
    requires forall k :: 0 <= k < |rs| ==> !(rs[k].atOffset <= at < rs[k].atOffset + 4)
    ensures |ApplyAll(code, architecture, rs).value| == |code| && ApplyAll(code, architecture, rs).value[at] == code[at]
  {
    AppliedPatches(code, architecture, rs);
    PatchAllElsewhere(code, PatchesOf(rs), at);
  }

  /** The last entry at a site. */
  predicate LastAtSite(rs: seq<Relocation>, k: nat) {
    k < |rs| && forall j :: k < j < |rs| ==> rs[j].atOffset != rs[k].atOffset
  }

  lemma BranchMeetsItsTarget(r: Relocation, length: nat)
    requires Applicable(r, length)
    ensures Legal(RelocatedBranch(r)) && BranchTarget(RelocatedBranch(r), r.atOffset) == r.target.value
  {
  }

  /** The last entry at each site leaves its own kind of branch there, to exactly its target. */
  lemma ApplyAllSites(code: Code, architecture: Option<AssemblerArchitecture>, rs: seq<Relocation>, k: nat)
    requires ApplyAll(code, architecture, rs).Ok? && LastAtSite(rs, k)
    ensures Relocated(ApplyAll(code, architecture, rs).value, rs[k])
  {
    AppliedPatches(code, architecture, rs);
    var ps := PatchesOf(rs);
    assert IsLast(ps, k);
    LastWins(code, ps, k);
    BranchMeetsItsTarget(rs[k], |code|);
    WordOfBytes(PatchAll(code, ps), ps[k]);
  }

  // ---- When the order matters ----

  lemma {:induction false} LastOfAtSite(rs: seq<Relocation>, before: seq<Relocation>, r: Relocation)
    returns (k: nat)
    requires AtSite(rs, r.atOffset) == before + [r]
    ensures LastAtSite(rs, k) && rs[k] == r
  {
    var rest := AtSite(rs[1..], r.atOffset);
    assert forall j :: 0 <= j < |rs[1..]| ==> rs[1..][j] == rs[j + 1];
    if rest == [] {
      NoneAtSite(rs[1..], r.atOffset);
      assert rs[0] == (before + [r])[|before|];
      k := 0;
    } else {
      assert rest == AtSite(rs, r.atOffset)[|AtSite(rs, r.atOffset)| - |rest|..];
      var l := LastOfAtSite(rs[1..], rest[..|rest| - 1], r);
      k := l + 1;
    }
  }

  lemma {:induction false} NoneAtSite(rs: seq<Relocation>, at: int)
    ensures AtSite(rs, at) == [] <==> forall r :: r in rs ==> r.atOffset != at
  {
    if rs != [] {
      NoneAtSite(rs[1..], at);
      assert rs == [rs[0]] + rs[1..];
    }
  }

  lemma AppendAssociates(a: seq<Relocation>, b: seq<Relocation>, c: seq<Relocation>)
    ensures a + (b + c) == (a + b) + c
  {
  }

  lemma {:induction false} AtSiteAppend(a: seq<Relocation>, b: seq<Relocation>, at: int)
    ensures AtSite(a + b, at) == AtSite(a, at) + AtSite(b, at)
  {
    if a == [] {
      assert a + b == b;
    } else {
      var first := if a[0].atOffset == at then [a[0]] else [];
      AtSiteAppend(a[1..], b, at);
      assert (a + b)[0] == a[0] && (a + b)[1..] == a[1..] + b;
      AppendAssociates(first, AtSite(a[1..], at), AtSite(b, at));
    }
  }

  lemma SameApplicable(a: seq<Relocation>, b: seq<Relocation>, length: nat)
    requires multiset(a) == multiset(b) && AllApplicable(a, length)
    ensures AllApplicable(b, length)
  {
    forall k | 0 <= k < |b| ensures Applicable(b[k], length) {
      assert b[k] in multiset(a);
      var j :| 0 <= j < |a| && a[j] == b[k];
    }
  }

  /** Of the entries at a site, the one listed last decides what is there. */
  lemma LastListedWins(code: Code, rs: seq<Relocation>, r: Relocation)
    requires AllApplicable(rs, |code|) && Applicable(r, |code|)
    ensures var applied := ApplyAll(code, Some(Arm64), SortByOffset(rs + [r]));
            applied.Ok? && Relocated(applied.value, r)
  {
    var sorted := SortByOffset(rs + [r]);
    SortStable(rs + [r], r.atOffset);
    AtSiteAppend(rs, [r], r.atOffset);
    assert AtSite([r], r.atOffset) == [r];
    var k := LastOfAtSite(sorted, AtSite(rs, r.atOffset), r);
    SameApplicable(rs + [r], sorted, |code|);
    LastRelocated(code, sorted, k);
  }

  lemma LastRelocated(code: Code, rs: seq<Relocation>, k: nat)
    requires AllApplicable(rs, |code|) && LastAtSite(rs, k)
    ensures ApplyAll(code, Some(Arm64), rs).Ok? && Relocated(ApplyAll(code, Some(Arm64), rs).value, rs[k])
  {
    ApplyAllPatches(code, rs);
    ApplyAllSites(code, Some(Arm64), rs, k);
  }

  /** Entries at the same site write the same branch. */
  ghost predicate SitesAgree(rs: seq<Relocation>)
    requires forall k :: 0 <= k < |rs| ==> rs[k].target.Some?
  {
    forall i, j :: 0 <= i < |rs| && 0 <= j < |rs| && rs[i].atOffset == rs[j].atOffset ==>
      RelocatedBranch(rs[i]) == RelocatedBranch(rs[j])
  }

  /** Every listing of the same entries gives the same bytes. */
  ghost predicate OrderIrrelevant(code: Code, rs: seq<Relocation>) {
    forall qs {:trigger SortByOffset(qs)} :: multiset(qs) == multiset(rs) ==>
      ApplyAll(code, Some(Arm64), SortByOffset(qs)) == ApplyAll(code, Some(Arm64), SortByOffset(rs))
  }

  lemma ListedElsewhere(a: seq<Relocation>, b: seq<Relocation>, k: nat) returns (j: nat)
    requires multiset(a) == multiset(b) && k < |a|
    ensures j < |b| && b[j] == a[k]
  {
    assert a[k] in multiset(b);
    j :| 0 <= j < |b| && b[j] == a[k];
  }

  lemma SamePatches(a: seq<Relocation>, b: seq<Relocation>, length: nat)
    requires multiset(a) == multiset(b) && AllApplicable(a, length) && AllApplicable(b, length)
    ensures forall p :: p in PatchesOf(a) ==> p in PatchesOf(b)
  {
    forall p | p in PatchesOf(a) ensures p in PatchesOf(b) {
      var k :| 0 <= k < |a| && PatchesOf(a)[k] == p;
      var j := ListedElsewhere(a, b, k);
      assert PatchesOf(b)[j] == p;
    }
  }

  lemma AgreeingOrder(code: Code, rs: seq<Relocation>, a: seq<Relocation>, b: seq<Relocation>)
    requires AllApplicable(rs, |code|) && SitesAgree(rs)
    requires multiset(a) == multiset(rs) && multiset(b) == multiset(rs)
    ensures ApplyAll(code, Some(Arm64), a) == ApplyAll(code, Some(Arm64), b)
  {
    SameApplicable(rs, a, |code|);
    SameApplicable(rs, b, |code|);
    ApplyAllPatches(code, a);
    ApplyAllPatches(code, b);
    SamePatches(a, b, |code|);
    SamePatches(b, a, |code|);
    forall p, q | p in PatchesOf(a) && q in PatchesOf(a) && p.at == q.at
      ensures p.instr == q.instr
    {
      var k, l :| 0 <= k < |a| && 0 <= l < |a| && PatchesOf(a)[k] == p && PatchesOf(a)[l] == q;
      var i := ListedElsewhere(a, rs, k);
      var j := ListedElsewhere(a, rs, l);
    }
    AgreedInAnyOrder(code, PatchesOf(a), PatchesOf(b));
  }

  lemma ListedLast(rs: seq<Relocation>, k: nat)
    requires k < |rs|
    ensures multiset(rs[..k] + rs[k + 1..] + [rs[k]]) == multiset(rs)
  {
    assert rs == rs[..k] + ([rs[k]] + rs[k + 1..]);
  }

  lemma WithoutOne(rs: seq<Relocation>, k: nat, length: nat)
    requires AllApplicable(rs, length) && k < |rs|
    ensures AllApplicable(rs[..k] + rs[k + 1..], length)
  {
  }

  lemma IrrelevantOrder(code: Code, rs: seq<Relocation>, qs: seq<Relocation>)
    requires OrderIrrelevant(code, rs) && multiset(qs) == multiset(rs)
    ensures ApplyAll(code, Some(Arm64), SortByOffset(qs)) == ApplyAll(code, Some(Arm64), SortByOffset(rs))
  {
  }

  lemma MovedLast(code: Code, rs: seq<Relocation>, k: nat)
    requires AllApplicable(rs, |code|) && OrderIrrelevant(code, rs) && k < |rs|
    ensures var applied := ApplyAll(code, Some(Arm64), SortByOffset(rs));
            applied.Ok? && Relocated(applied.value, rs[k])
  {
    var others, r := rs[..k] + rs[k + 1..], rs[k];
    WithoutOne(rs, k, |code|);
    ListedLast(rs, k);
    IrrelevantOrder(code, rs, others + [r]);
    LastListedWins(code, others, r);
  }

  /** Listing the relocations in another order never changes the bytes exactly when those at a shared site
      all write the same branch. */
  lemma OrderIrrelevantExactly(code: Code, rs: seq<Relocation>)
    requires AllApplicable(rs, |code|)
    ensures OrderIrrelevant(code, rs) <==> SitesAgree(rs)
  {
    if OrderIrrelevant(code, rs) {
      forall i, j | 0 <= i < |rs| && 0 <= j < |rs| && rs[i].atOffset == rs[j].atOffset
        ensures RelocatedBranch(rs[i]) == RelocatedBranch(rs[j])
      {
        MovedLast(code, rs, i);
        MovedLast(code, rs, j);
      }
    }
    if SitesAgree(rs) {
      forall qs | multiset(qs) == multiset(rs)
        ensures ApplyAll(code, Some(Arm64), SortByOffset(qs)) == ApplyAll(code, Some(Arm64), SortByOffset(rs))
      {
        AgreeingOrder(code, rs, SortByOffset(qs), SortByOffset(rs));
      }
    }
  }
}
