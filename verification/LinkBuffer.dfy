/** Planning the layout of a frozen buffer, and linking its byte image. */
module LinkBuffer {
  import opened Wrappers
  import opened Words
  import opened Instructions
  import opened CodeBuffer
  import opened LinkRecords
  import opened Labels
  import opened Relocations
  import opened Digests

  datatype DataKind = CodeBytes | Hashes

  datatype Lifecycle =
    | ThreadLocalReusable | Building | FrozenForLink | CopiedToExecutableMemory | ReturnedToThreadCache | Released

  datatype Profile =
    | Baseline | Dfg | Ftl | DfgOsrEntry | DfgOsrExit | FtlOsrExit | InlineCache | JumpIsland | Thunk | LlIntThunk
    | DfgThunk | FtlThunk | WasmThunk | YarrJit | Uncategorized

  datatype LinkState = Unlinked | Linking | Linked | AllocationFailed | RewritingExistingCode | Finalized

  datatype PermissionTransition = RwxToRw | RwxToRx | RwToRw | RwToRx | RwToRo

  datatype ValidationError =
    | UnknownRelocationKind(kind: RelocationKind)
    | BufferLengthExceedsCapacity
    | BufferHasRelocationsWithoutArchitecture
    | RelocationRequiresMissingLabel(kind: RelocationKind)
    | RelocationTargetMissing(target: AssemblerLabel)
    | LinkBufferSourceMissing
    | LinkBufferSchemaMissing(profile: Profile)
    | LinkBufferTransitionMismatch(profile: Profile)
    | LinkBufferRelocationNotAllowed(profile: Profile, kind: RelocationKind)
    | PatchWithoutAllocation
    | ImageIdZero
    | ImageDigestMissing
    | ImageSourceNotFrozen(lifecycle: Lifecycle)
    | ImageSourceEmpty
    | ImageProofMismatch
    | ImageBytesLengthMismatch(expected: nat, actual: nat)
    | ImageDigestMismatch
    | LinkBufferProfileMissing
    | LayoutSourceMismatch
    | LayoutSizeMismatch
    | LayoutStateMismatch
    | LayoutRelocationCountMismatch
    | LayoutRelocationsOutOfOrder
    | RelocationFailed(error: RelocationError)

  // ---- Buffers and layouts ----

  datatype Buffer = Buffer(id: nat, architecture: Option<AssemblerArchitecture>, byteLen: U32, capacityBytes: U32,
                           inlineCapacityBytes: U32, labels: seq<AssemblerLabel>, relocations: seq<Relocation>)

  /** The registered relocation kinds, and whether each needs a label. */
  function RequiresLabel(kind: RelocationKind): Option<bool> {
    match kind
    case CodeLabel => Some(true)
    case NearCall => Some(true)
    case Jump => Some(true)
    case AbsolutePointer => Some(false)
    case _ => None
  }

  function ValidateRelocation(buffer: Buffer, r: Relocation): Result<(), ValidationError> {
    if RequiresLabel(r.kind).None? then Err(UnknownRelocationKind(r.kind))
    else if RequiresLabel(r.kind).value && r.target.None? then Err(RelocationRequiresMissingLabel(r.kind))
    else if r.target.Some? && r.target.value !in buffer.labels then Err(RelocationTargetMissing(r.target.value))
    else Ok(())
  }

  function ValidateRelocations(buffer: Buffer, rs: seq<Relocation>): Result<(), ValidationError> {
    if rs == [] then Ok(())
    else
      var _ :- ValidateRelocation(buffer, rs[0]);
      ValidateRelocations(buffer, rs[1..])
  }

  function ValidateBuffer(buffer: Buffer): Result<(), ValidationError> {
    if buffer.byteLen > buffer.capacityBytes then Err(BufferLengthExceedsCapacity)
    else if buffer.relocations != [] && buffer.architecture.None? then Err(BufferHasRelocationsWithoutArchitecture)
    else ValidateRelocations(buffer, buffer.relocations)
  }

  /** A profile's schema: the relocations it allows and the permission change it needs. */
  datatype Schema = Schema(code: bool, transition: PermissionTransition)

  function SchemaFor(profile: Profile): Option<Schema> {
    match profile
    case Baseline => Some(Schema(true, RwToRx))
    case Ftl => Some(Schema(true, RwToRx))
    case InlineCache => Some(Schema(false, RwxToRx))
    case _ => None
  }

  predicate Allows(schema: Schema, kind: RelocationKind) {
    if schema.code then
      kind == CodeLabel || IsCall(kind) || IsJump(kind) || kind == ExternalReference
    else
      kind == DataLabel || kind == CompactDataLabel || kind == PointerDataLabel || kind == AbsolutePointer
  }

  function CheckAllowed(profile: Profile, schema: Schema, rs: seq<Relocation>): Result<(), ValidationError> {
    if rs == [] then Ok(())
    else if !Allows(schema, rs[0].kind) then Err(LinkBufferRelocationNotAllowed(profile, rs[0].kind))
    else CheckAllowed(profile, schema, rs[1..])
  }

  datatype Plan = Plan(source: nat, allocation: Option<nat>, profile: Option<Profile>, state: Option<LinkState>,
                       patches: nat, transition: Option<PermissionTransition>)

  datatype Layout = Layout(plan: Plan, relocations: seq<Relocation>, codeSizeBytes: U32, inlineCapacityUsed: bool)

  function ValidatePlan(plan: Plan, profile: Profile, schema: Schema): Result<(), ValidationError> {
    if plan.source == 0 then Err(LinkBufferSourceMissing)
    else if plan.profile != Some(profile) then Err(LinkBufferSchemaMissing(profile))
    else if plan.transition != Some(schema.transition) then Err(LinkBufferTransitionMismatch(profile))
    else if plan.patches > 0 && plan.allocation.None? then Err(PatchWithoutAllocation)
    else Ok(())
  }

  function PlanLayout(buffer: Buffer, profile: Profile, allocation: Option<nat>): Result<Layout, ValidationError> {
    var _ :- ValidateBuffer(buffer);
    if SchemaFor(profile).None? then Err(LinkBufferSchemaMissing(profile))
    else
      var schema := SchemaFor(profile).value;
      var plan := Plan(buffer.id, allocation, Some(profile), Some(Linking), 0, Some(schema.transition));
      var _ :- CheckAllowed(profile, schema, buffer.relocations);
      var _ :- ValidatePlan(plan, profile, schema);
      Ok(Layout(plan, SortByOffset(buffer.relocations), buffer.byteLen,
                buffer.byteLen <= buffer.inlineCapacityBytes))
  }

  // ---- Images ----

  /** What an image's proof repeats of its descriptor. */
  datatype Facts = Facts(id: nat, source: nat, lifecycle: Lifecycle, dataKind: DataKind,
                         architecture: Option<AssemblerArchitecture>, byteLen: U32, digest: Hash, labelCount: nat,
                         jumpCount: nat, relocationCount: nat)

  datatype Image = Image(facts: Facts, proof: Facts, bytes: Code)

  function ValidateImage(image: Image): Result<(), ValidationError> {
    if image.facts.id == 0 then Err(ImageIdZero)
    else if image.facts.digest == 0 then Err(ImageDigestMissing)
    else if image.facts.lifecycle != FrozenForLink then Err(ImageSourceNotFrozen(image.facts.lifecycle))
    else if image.facts.byteLen == 0 then Err(ImageSourceEmpty)
    else if image.proof != image.facts then Err(ImageProofMismatch)
    else if |image.bytes| != image.facts.byteLen then
      Err(ImageBytesLengthMismatch(image.facts.byteLen, |image.bytes|))
    else if Digest(image.bytes) != image.facts.digest then Err(ImageDigestMismatch)
    else Ok(())
  }

  predicate InOrder(rs: seq<Relocation>) {
    forall k :: 0 <= k < |rs| - 1 ==> rs[k].atOffset <= rs[k + 1].atOffset
  }

  function ValidateLayout(image: Image, layout: Layout): Result<Profile, ValidationError> {
    if layout.plan.profile.None? then Err(LinkBufferProfileMissing)
    else
      var profile := layout.plan.profile.value;
      if SchemaFor(profile).None? then Err(LinkBufferSchemaMissing(profile))
      else
        var schema := SchemaFor(profile).value;
        var _ :- ValidatePlan(layout.plan, profile, schema);
        if layout.plan.state != Some(Linking) then Err(LayoutStateMismatch)
        else if layout.plan.source != image.facts.source then Err(LayoutSourceMismatch)
        else if layout.codeSizeBytes != image.facts.byteLen then Err(LayoutSizeMismatch)
        else if |layout.relocations| != image.facts.relocationCount then Err(LayoutRelocationCountMismatch)
        else if !InOrder(layout.relocations) then Err(LayoutRelocationsOutOfOrder)
        else
          var _ :- CheckAllowed(profile, schema, layout.relocations);
          Ok(profile)
  }

  // ---- Linking an image ----

  datatype LinkedImage = LinkedImage(sourceImageId: nat, sourceImageDigest: Hash, outputDigest: Hash,
                                     outputSizeBytes: U32, relocationCount: nat, profile: Profile, state: LinkState,
                                     bytes: Code)

  function ValidateLinked(linked: LinkedImage): Result<(), ValidationError> {
    if linked.sourceImageId == 0 then Err(ImageIdZero)
    else if linked.sourceImageDigest == 0 || linked.outputDigest == 0 then Err(ImageDigestMissing)
    else if linked.state != Linked then Err(LayoutStateMismatch)
    else if |linked.bytes| != linked.outputSizeBytes then
      Err(ImageBytesLengthMismatch(linked.outputSizeBytes, |linked.bytes|))
    else if Digest(linked.bytes) != linked.outputDigest then Err(ImageDigestMismatch)
    else Ok(())
  }

  /** The image with its relocations applied, before the final validation. */
  function Relocate(image: Image, layout: Layout): Result<LinkedImage, ValidationError> {
    var _ :- ValidateImage(image);
    var profile :- ValidateLayout(image, layout);
    match ApplyAll(image.bytes, image.facts.architecture, layout.relocations)
    case Err(error) => Err(RelocationFailed(error))
    case Ok(bytes) =>
      Ok(LinkedImage(image.facts.id, image.facts.digest, Digest(bytes), layout.codeSizeBytes, |layout.relocations|,
                     profile, Linked, bytes))
  }

  function LinkImage(image: Image, layout: Layout): Result<LinkedImage, ValidationError> {
    var linked :- Relocate(image, layout);
    var _ :- ValidateLinked(linked);
    Ok(linked)
  }

  lemma OutputValid(id: nat, digest: Hash, bytes: Code, relocationCount: nat, profile: Profile)
    requires id != 0 && digest != 0 && |bytes| < 0x1_0000_0000
    ensures ValidateLinked(LinkedImage(id, digest, Digest(bytes), |bytes|, relocationCount, profile, Linked, bytes)).Ok?
  {
  }

  lemma RelocatedParts(image: Image, layout: Layout)
    requires Relocate(image, layout).Ok?
    ensures ApplyAll(image.bytes, image.facts.architecture, layout.relocations).Ok?
    ensures var linked := Relocate(image, layout).value;
            && linked.sourceImageId != 0 && linked.sourceImageDigest != 0 && linked.state == Linked
            && linked.outputDigest == Digest(linked.bytes) && linked.outputSizeBytes == |image.bytes|
            && Ok(linked.bytes) == ApplyAll(image.bytes, image.facts.architecture, layout.relocations)
  {
  }

  /** The final validation never fails: linking succeeds exactly when validation and relocation do. */
  lemma FinalValidationSucceeds(image: Image, layout: Layout)
    ensures LinkImage(image, layout) == Relocate(image, layout)
  {
    var relocated := Relocate(image, layout);
    if relocated.Ok? {
      RelocatedParts(image, layout);
      ApplyAllExact(image.bytes, image.facts.architecture, layout.relocations);
      var linked := relocated.value;
      OutputValid(linked.sourceImageId, linked.sourceImageDigest, linked.bytes, linked.relocationCount, linked.profile);
    }
  }

  /** An image as it was frozen: identified, not empty, and what its proof and digest say. */
  predicate Frozen(image: Image) {
    var facts := image.facts;
    && facts.id != 0 && facts.lifecycle == FrozenForLink && image.proof == facts
    && |image.bytes| == facts.byteLen > 0 && facts.digest == Digest(image.bytes)
  }

  /** The profiles with a schema whose relocations are in code. */
  predicate CodeProfile(profile: Profile) {
    profile == Baseline || profile == Ftl
  }

  /** A layout that was planned for linking the image with a registered profile, its relocations by site. */
  ghost predicate LaidOut(image: Image, layout: Layout) {
    var plan := layout.plan;
    && (plan.profile == Some(Baseline) || plan.profile == Some(Ftl) || plan.profile == Some(InlineCache))
    && plan.transition == Some(if plan.profile == Some(InlineCache) then RwxToRx else RwToRx)
    && plan.state == Some(Linking) && plan.source == image.facts.source != 0
    && (plan.patches > 0 ==> plan.allocation.Some?)
    && layout.codeSizeBytes == |image.bytes| && |layout.relocations| == image.facts.relocationCount
    && Ordered(layout.relocations)
  }

  lemma {:induction false} InOrderIsOrdered(rs: seq<Relocation>)
    ensures InOrder(rs) <==> Ordered(rs)
  {
    if InOrder(rs) && rs != [] {
      var rest := rs[1..];
      assert forall k :: 0 <= k < |rest| ==> rest[k] == rs[k + 1];
      InOrderIsOrdered(rest);
      forall j | 0 < j < |rs|
        ensures rs[0].atOffset <= rs[j].atOffset
      {
        assert rs[0].atOffset <= rest[0].atOffset <= rest[j - 1].atOffset;
      }
      forall i, j | 0 <= i < j < |rs|
        ensures rs[i].atOffset <= rs[j].atOffset
      {
        if i > 0 {
          assert rest[i - 1].atOffset <= rest[j - 1].atOffset;
        }
      }
    }
  }

  lemma LayoutExact(image: Image, layout: Layout)
    requires Frozen(image)
    ensures ValidateLayout(image, layout).Ok? <==>
      && LaidOut(image, layout)
      && forall k :: 0 <= k < |layout.relocations| ==>
           Allows(SchemaFor(layout.plan.profile.value).value, layout.relocations[k].kind)
  {
    InOrderIsOrdered(layout.relocations);
    if layout.plan.profile.Some? && SchemaFor(layout.plan.profile.value).Some? {
      var profile := layout.plan.profile.value;
      AllowedPermuted(profile, SchemaFor(profile).value, layout.relocations);
    }
  }

  lemma LinkStepsExact(image: Image, layout: Layout)
    ensures LinkImage(image, layout).Ok? <==>
      && Frozen(image) && ValidateLayout(image, layout).Ok?
      && ApplyAll(image.bytes, image.facts.architecture, layout.relocations).Ok?
  {
    FinalValidationSucceeds(image, layout);
  }

  /** Calls and jumps are allowed in code and nowhere else. */
  lemma AllowedBranches(profile: Profile, rs: seq<Relocation>, length: nat)
    requires SchemaFor(profile).Some? && AllApplicable(rs, length)
    ensures (forall k :: 0 <= k < |rs| ==> Allows(SchemaFor(profile).value, rs[k].kind)) <==>
      rs == [] || CodeProfile(profile)
  {
    if rs != [] {
      assert Applicable(rs[0], length);
    }
  }

  /** Exactly which images link: frozen ones, with a layout planned for them, whose relocations, if any, are
      branches in the code of an ARM64 image that each reach their target. An inline cache links only without
      relocations, since the ones that its profile allows are never applied. */
  lemma LinkImageExact(image: Image, layout: Layout)
    ensures LinkImage(image, layout).Ok? <==>
      && Frozen(image) && LaidOut(image, layout)
      && (layout.relocations == [] ||
          (CodeProfile(layout.plan.profile.value) && image.facts.architecture == Some(Arm64) &&
           AllApplicable(layout.relocations, |image.bytes|)))
  {
    LinkStepsExact(image, layout);
    ApplyAllExact(image.bytes, image.facts.architecture, layout.relocations);
    if Frozen(image) {
      LayoutExact(image, layout);
      if LaidOut(image, layout) && AllApplicable(layout.relocations, |image.bytes|) {
        AllowedBranches(layout.plan.profile.value, layout.relocations, |image.bytes|);
      }
    }
  }

  /** A linked image has the length of its source; with distinct sites each of them decodes to the `b` of a
      jump or the `bl` of a call, to exactly its target. */
  lemma LinkedImageSites(image: Image, layout: Layout, k: nat)
    requires LinkImage(image, layout).Ok? && DistinctOffsets(layout.relocations) && k < |layout.relocations|
    ensures var linked := LinkImage(image, layout).value;
            var r := layout.relocations[k];
            && |linked.bytes| == |image.bytes| && r.target.Some? && (r.target.value - r.atOffset) % 4 == 0
            && (r.kind == Jump || r.kind == PatchableJump || r.kind == NearCall || r.kind == FarCall)
            && DecodeAt(linked.bytes, r.atOffset) ==
               Some(Branch(r.kind == NearCall || r.kind == FarCall, (r.target.value - r.atOffset) / 4))
  {
    FinalValidationSucceeds(image, layout);
    ApplyAllExact(image.bytes, image.facts.architecture, layout.relocations);
    ApplyAllSites(image.bytes, image.facts.architecture, layout.relocations, k);
  }

  /** And every byte outside the sites is the image's. */
  lemma LinkedImageElsewhere(image: Image, layout: Layout, at: nat)
    requires LinkImage(image, layout).Ok? && at < |image.bytes|
    requires forall k :: 0 <= k < |layout.relocations| ==>
      !(layout.relocations[k].atOffset <= at < layout.relocations[k].atOffset + 4)
    ensures at < |LinkImage(image, layout).value.bytes| && LinkImage(image, layout).value.bytes[at] == image.bytes[at]
  {
    FinalValidationSucceeds(image, layout);
    ApplyAllElsewhere(image.bytes, image.facts.architecture, layout.relocations, at);
  }

  // ---- The order a buffer lists its relocations in ----

  lemma {:induction false} ValidationPermuted(buffer: Buffer, rs: seq<Relocation>)
    ensures ValidateRelocations(buffer, rs).Ok? <==> forall r :: r in rs ==> ValidateRelocation(buffer, r).Ok?
  {
    if rs != [] {
      ValidationPermuted(buffer, rs[1..]);
      assert rs == [rs[0]] + rs[1..];
    }
  }

  lemma {:induction false} AllowedPermuted(profile: Profile, schema: Schema, rs: seq<Relocation>)
    ensures CheckAllowed(profile, schema, rs).Ok? <==> forall r :: r in rs ==> Allows(schema, r.kind)
  {
    if rs != [] {
      AllowedPermuted(profile, schema, rs[1..]);
      assert rs == [rs[0]] + rs[1..];
    }
  }

  /** A far call or a patchable jump is allowed by the code profiles and known to the relocation step, but its
      kind is not registered, so that a buffer that lists one can never be planned. */
  lemma UnregisteredKindRejected(buffer: Buffer, profile: Profile, allocation: Option<nat>, r: Relocation)
    requires r in buffer.relocations && (r.kind == FarCall || r.kind == PatchableJump)
    ensures PlanLayout(buffer, profile, allocation).Err?
  {
    PlanExact(buffer, profile, allocation);
  }

  lemma PermutedMembers(a: seq<Relocation>, b: seq<Relocation>)
    requires multiset(a) == multiset(b)
    ensures forall r :: r in a <==> r in b
    ensures |a| == |b|
  {
    forall r ensures r in a <==> r in b {
      assert r in a <==> r in multiset(a);
      assert r in b <==> r in multiset(b);
    }
    assert |multiset(a)| == |a| && |multiset(b)| == |b|;
  }

  /** A relocation that is registered and that the profile allows: a code label, near call or jump to a label
      of the buffer, or an absolute pointer, to a label if it has a target at all, in an inline cache. */
  predicate PlannableRelocation(buffer: Buffer, profile: Profile, r: Relocation) {
    && (r.target.Some? ==> r.target.value in buffer.labels)
    && if profile == InlineCache then r.kind == AbsolutePointer
       else r.target.Some? && (r.kind == CodeLabel || r.kind == NearCall || r.kind == Jump)
  }

  /** What a buffer needs for a layout to be planned. */
  ghost predicate Plannable(buffer: Buffer, profile: Profile) {
    && buffer.id != 0 && buffer.byteLen <= buffer.capacityBytes
    && (buffer.relocations == [] || buffer.architecture.Some?)
    && (profile == Baseline || profile == Ftl || profile == InlineCache)
    && forall r :: r in buffer.relocations ==> PlannableRelocation(buffer, profile, r)
  }

  lemma RelocationExact(buffer: Buffer, profile: Profile, r: Relocation)
    requires SchemaFor(profile).Some?
    ensures ValidateRelocation(buffer, r).Ok? && Allows(SchemaFor(profile).value, r.kind) <==>
      PlannableRelocation(buffer, profile, r)
  {
  }

  lemma RelocationsExact(buffer: Buffer, profile: Profile, rs: seq<Relocation>)
    requires SchemaFor(profile).Some?
    ensures ValidateRelocations(buffer, rs).Ok? && CheckAllowed(profile, SchemaFor(profile).value, rs).Ok? <==>
      forall r :: r in rs ==> PlannableRelocation(buffer, profile, r)
  {
    ValidationPermuted(buffer, rs);
    AllowedPermuted(profile, SchemaFor(profile).value, rs);
    forall r
      ensures ValidateRelocation(buffer, r).Ok? && Allows(SchemaFor(profile).value, r.kind) <==>
        PlannableRelocation(buffer, profile, r)
    {
      RelocationExact(buffer, profile, r);
    }
  }

  /** Exactly which buffers can be planned, and the layout. */
  lemma PlanExact(buffer: Buffer, profile: Profile, allocation: Option<nat>)
    ensures PlanLayout(buffer, profile, allocation).Ok? <==> Plannable(buffer, profile)
    ensures Plannable(buffer, profile) ==>
      var plan := Plan(buffer.id, allocation, Some(profile), Some(Linking), 0,
          Some(if profile == InlineCache then RwxToRx else RwToRx));
      PlanLayout(buffer, profile, allocation) ==
        Ok(Layout(plan, SortByOffset(buffer.relocations), buffer.byteLen, buffer.byteLen <= buffer.inlineCapacityBytes))
  {
    if SchemaFor(profile).Some? {
      RelocationsExact(buffer, profile, buffer.relocations);
    }
  }

  lemma PlannablePermuted(a: Buffer, b: Buffer, profile: Profile)
    requires b == a.(relocations := b.relocations) && multiset(a.relocations) == multiset(b.relocations)
    ensures Plannable(a, profile) <==> Plannable(b, profile)
  {
    PermutedMembers(a.relocations, b.relocations);
    forall r ensures PlannableRelocation(a, profile, r) <==> PlannableRelocation(b, profile, r) {
    }
  }

  /** Listing a buffer's relocations in another order does not change whether a layout can be planned,
      nor, when their sites are distinct, the layout itself. */
  lemma PlanPermuted(a: Buffer, b: Buffer, profile: Profile, allocation: Option<nat>)
    requires b == a.(relocations := b.relocations) && multiset(a.relocations) == multiset(b.relocations)
    ensures PlanLayout(a, profile, allocation).Ok? <==> PlanLayout(b, profile, allocation).Ok?
    ensures PlanLayout(a, profile, allocation).Ok? && DistinctOffsets(a.relocations) ==>
      PlanLayout(a, profile, allocation) == PlanLayout(b, profile, allocation)
  {
    PlanExact(a, profile, allocation);
    PlanExact(b, profile, allocation);
    PlannablePermuted(a, b, profile);
    if DistinctOffsets(a.relocations) {
      SortPermuted(a.relocations, b.relocations);
    }
  }

  /** So the linked bytes do not depend on it either. */
  lemma LinkPermuted(image: Image, a: Buffer, b: Buffer, profile: Profile, allocation: Option<nat>)
    requires b == a.(relocations := b.relocations) && multiset(a.relocations) == multiset(b.relocations)
    requires DistinctOffsets(a.relocations) && PlanLayout(a, profile, allocation).Ok?
    ensures PlanLayout(b, profile, allocation).Ok?
    ensures LinkImage(image, PlanLayout(a, profile, allocation).value) ==
      LinkImage(image, PlanLayout(b, profile, allocation).value)
  {
    PlanPermuted(a, b, profile, allocation);
  }

  /** A planned buffer's layout, as an image's. */
  lemma PlannedIsLaidOut(image: Image, buffer: Buffer, profile: Profile, allocation: Option<nat>)
    requires PlanLayout(buffer, profile, allocation).Ok?
    ensures LaidOut(image, PlanLayout(buffer, profile, allocation).value) <==>
      image.facts.source == buffer.id && |image.bytes| == buffer.byteLen &&
      image.facts.relocationCount == |buffer.relocations|
  {
    PlanExact(buffer, profile, allocation);
  }

  lemma AppliedInCode(buffer: Buffer, profile: Profile, length: nat)
    requires Plannable(buffer, profile) && buffer.relocations != [] && AllApplicable(buffer.relocations, length)
    ensures CodeProfile(profile)
  {
    assert buffer.relocations[0] in buffer.relocations;
  }

  lemma SortedApplicable(rs: seq<Relocation>, length: nat)
    ensures AllApplicable(SortByOffset(rs), length) <==> AllApplicable(rs, length)
  {
    if AllApplicable(rs, length) {
      SameApplicable(rs, SortByOffset(rs), length);
    } else if AllApplicable(SortByOffset(rs), length) {
      SameApplicable(SortByOffset(rs), rs, length);
    }
  }

  /** A planned buffer links on an image exactly when the image is a frozen one of that buffer and its
      relocations, if any, are near calls and jumps in ARM64 code that each reach their target: planning lets
      code labels and absolute pointers through, and linking does not. */
  lemma PlannedLinksExactly(image: Image, buffer: Buffer, profile: Profile, allocation: Option<nat>)
    requires PlanLayout(buffer, profile, allocation).Ok?
    ensures LinkImage(image, PlanLayout(buffer, profile, allocation).value).Ok? <==>
      && Frozen(image) && image.facts.source == buffer.id
      && |image.bytes| == buffer.byteLen && image.facts.relocationCount == |buffer.relocations|
      && (buffer.relocations == [] ||
          (image.facts.architecture == Some(Arm64) && AllApplicable(buffer.relocations, |image.bytes|)))
  {
    var layout := PlanLayout(buffer, profile, allocation).value;
    PlanExact(buffer, profile, allocation);
    PlannedIsLaidOut(image, buffer, profile, allocation);
    LinkImageExact(image, layout);
    SortedApplicable(buffer.relocations, |image.bytes|);
    if buffer.relocations != [] && AllApplicable(buffer.relocations, |image.bytes|) {
      AppliedInCode(buffer, profile, |image.bytes|);
    }
  }

  /** Every listing of a buffer's relocations can be planned and links to the same image. */
  ghost predicate ListingIrrelevant(image: Image, buffer: Buffer, profile: Profile, allocation: Option<nat>) {
    forall rs {:trigger SortByOffset(rs)} :: multiset(rs) == multiset(buffer.relocations) ==>
      Links(image, buffer.(relocations := rs), profile, allocation) == Links(image, buffer, profile, allocation)
  }

  /** Planning and linking. */
  function Links(image: Image, buffer: Buffer, profile: Profile, allocation: Option<nat>)
    : Result<LinkedImage, ValidationError>
  {
    var layout :- PlanLayout(buffer, profile, allocation);
    LinkImage(image, layout)
  }

  function LinkedAs(image: Image, profile: Profile, relocationCount: nat, bytes: Code): LinkedImage
    requires |bytes| < 0x1_0000_0000
  {
    LinkedImage(image.facts.id, image.facts.digest, Digest(bytes), |bytes|, relocationCount, profile, Linked, bytes)
  }

  lemma RelocatedIs(image: Image, layout: Layout, bytes: Code)
    requires Relocate(image, layout).Ok? && |bytes| == layout.codeSizeBytes
    requires ApplyAll(image.bytes, image.facts.architecture, layout.relocations) == Ok(bytes)
    ensures Relocate(image, layout) ==
      Ok(LinkedAs(image, ValidateLayout(image, layout).value, |layout.relocations|, bytes))
  {
  }

  lemma ValidatedProfile(image: Image, layout: Layout)
    requires ValidateLayout(image, layout).Ok?
    ensures layout.plan.profile == Some(ValidateLayout(image, layout).value)
  {
  }

  /** What a linked image is: its source's identity and digest, and its own bytes, length and digest. */
  lemma LinkedImageIs(image: Image, layout: Layout)
    requires LinkImage(image, layout).Ok?
    ensures var applied := ApplyAll(image.bytes, image.facts.architecture, layout.relocations);
            && applied.Ok? && |applied.value| == layout.codeSizeBytes && layout.plan.profile.Some?
            && LinkImage(image, layout) ==
               Ok(LinkedAs(image, layout.plan.profile.value, |layout.relocations|, applied.value))
  {
    FinalValidationSucceeds(image, layout);
    LinkStepsExact(image, layout);
    LinkImageExact(image, layout);
    ApplyAllExact(image.bytes, image.facts.architecture, layout.relocations);
    ValidatedProfile(image, layout);
    RelocatedIs(image, layout, ApplyAll(image.bytes, image.facts.architecture, layout.relocations).value);
  }

  /** What a planned and linked buffer's image is. */
  lemma LinksExactly(image: Image, buffer: Buffer, profile: Profile, allocation: Option<nat>)
    requires Links(image, buffer, profile, allocation).Ok? && buffer.relocations != []
    ensures AllApplicable(buffer.relocations, |image.bytes|)
    ensures var applied := ApplyAll(image.bytes, Some(Arm64), SortByOffset(buffer.relocations));
            && applied.Ok? && |applied.value| == buffer.byteLen
            && Links(image, buffer, profile, allocation) ==
               Ok(LinkedAs(image, profile, |buffer.relocations|, applied.value))
  {
    PlanExact(buffer, profile, allocation);
    PlannedLinksExactly(image, buffer, profile, allocation);
    LinkedImageIs(image, PlanLayout(buffer, profile, allocation).value);
  }

  lemma PermutedLinks(image: Image, a: Buffer, b: Buffer, profile: Profile, allocation: Option<nat>)
    requires b == a.(relocations := b.relocations) && multiset(a.relocations) == multiset(b.relocations)
    requires Links(image, a, profile, allocation).Ok?
    ensures Links(image, b, profile, allocation).Ok?
    ensures a.relocations != [] ==>
      (Links(image, a, profile, allocation) == Links(image, b, profile, allocation) <==>
       ApplyAll(image.bytes, Some(Arm64), SortByOffset(a.relocations)) ==
       ApplyAll(image.bytes, Some(Arm64), SortByOffset(b.relocations)))
  {
    PlanPermuted(a, b, profile, allocation);
    PermutedMembers(a.relocations, b.relocations);
    PlannedLinksExactly(image, a, profile, allocation);
    PlannedLinksExactly(image, b, profile, allocation);
    if a.relocations != [] {
      SameApplicable(a.relocations, b.relocations, |image.bytes|);
      LinksExactly(image, a, profile, allocation);
      LinksExactly(image, b, profile, allocation);
    }
  }

  /** The linked image does not depend on how a buffer lists its relocations exactly when those at a shared
      site all write the same branch. */
  lemma ListingIrrelevantExactly(image: Image, buffer: Buffer, profile: Profile, allocation: Option<nat>)
    requires Links(image, buffer, profile, allocation).Ok? && buffer.relocations != []
    ensures AllApplicable(buffer.relocations, |image.bytes|)
    ensures ListingIrrelevant(image, buffer, profile, allocation) <==> SitesAgree(buffer.relocations)
  {
    LinksExactly(image, buffer, profile, allocation);
    OrderIrrelevantExactly(image.bytes, buffer.relocations);
    forall rs | multiset(rs) == multiset(buffer.relocations)
      ensures Links(image, buffer.(relocations := rs), profile, allocation) ==
                Links(image, buffer, profile, allocation) <==>
              ApplyAll(image.bytes, Some(Arm64), SortByOffset(rs)) ==
                ApplyAll(image.bytes, Some(Arm64), SortByOffset(buffer.relocations))
    {
      PermutedLinks(image, buffer, buffer.(relocations := rs), profile, allocation);
    }
  }

  // ---- Errors ----

  /** The relocation kinds that a profile's schema allows. */
  predicate KindAllowed(profile: Profile, kind: RelocationKind) {
    if profile == InlineCache then kind in {DataLabel, CompactDataLabel, PointerDataLabel, AbsolutePointer}
    else kind in {CodeLabel, NearCall, FarCall, RelocationKind.Jump, PatchableJump, ExternalReference}
  }

  predicate HasSchema(profile: Profile) {
    profile == Baseline || profile == Ftl || profile == InlineCache
  }

  /** What an error of planning says of the buffer. */
  ghost predicate PlanErrorHolds(error: ValidationError, buffer: Buffer, profile: Profile) {
    var rs := buffer.relocations;
    match error
    case BufferLengthExceedsCapacity => buffer.byteLen > buffer.capacityBytes
    case BufferHasRelocationsWithoutArchitecture => rs != [] && buffer.architecture.None?
    case UnknownRelocationKind(kind) =>
      kind !in {CodeLabel, NearCall, RelocationKind.Jump, AbsolutePointer} && exists r :: r in rs && r.kind == kind
    case RelocationRequiresMissingLabel(kind) =>
      kind in {CodeLabel, NearCall, RelocationKind.Jump} && exists r :: r in rs && r.kind == kind && r.target.None?
    case RelocationTargetMissing(target) =>
      target !in buffer.labels && exists r :: r in rs && r.target == Some(target)
    case LinkBufferSchemaMissing(named) => named == profile && !HasSchema(profile)
    case LinkBufferRelocationNotAllowed(named, kind) =>
      named == profile && !KindAllowed(profile, kind) && exists r :: r in rs && r.kind == kind
    case LinkBufferSourceMissing => buffer.id == 0
    case _ => false
  }

  lemma {:induction false} FirstInvalid(buffer: Buffer, rs: seq<Relocation>) returns (r: Relocation)
    requires ValidateRelocations(buffer, rs).Err?
    ensures r in rs && ValidateRelocation(buffer, r) == ValidateRelocations(buffer, rs)
  {
    if ValidateRelocation(buffer, rs[0]).Err? {
      r := rs[0];
    } else {
      r := FirstInvalid(buffer, rs[1..]);
    }
  }

  lemma {:induction false} AllowedError(profile: Profile, schema: Schema, rs: seq<Relocation>) returns (r: Relocation)
    requires CheckAllowed(profile, schema, rs).Err?
    ensures r in rs && !Allows(schema, r.kind)
    ensures CheckAllowed(profile, schema, rs) == Err(LinkBufferRelocationNotAllowed(profile, r.kind))
  {
    if !Allows(schema, rs[0].kind) {
      r := rs[0];
    } else {
      r := AllowedError(profile, schema, rs[1..]);
    }
  }

  lemma SchemaAllows(profile: Profile, kind: RelocationKind)
    requires SchemaFor(profile).Some?
    ensures HasSchema(profile) && (Allows(SchemaFor(profile).value, kind) <==> KindAllowed(profile, kind))
  {
  }

  /** An error of planning tells the truth of the buffer. */
  lemma PlanErrors(buffer: Buffer, profile: Profile, allocation: Option<nat>)
    requires PlanLayout(buffer, profile, allocation).Err?
    ensures PlanErrorHolds(PlanLayout(buffer, profile, allocation).error, buffer, profile)
  {
    if ValidateRelocations(buffer, buffer.relocations).Err? {
      var r := FirstInvalid(buffer, buffer.relocations);
    } else if SchemaFor(profile).Some? {
      if CheckAllowed(profile, SchemaFor(profile).value, buffer.relocations).Err? {
        var r := AllowedError(profile, SchemaFor(profile).value, buffer.relocations);
        SchemaAllows(profile, r.kind);
      }
    }
  }

  /** What an error of linking says of the image and the layout. */
  ghost predicate ImageErrorHolds(error: ValidationError, image: Image, layout: Layout) {
    var facts, plan := image.facts, layout.plan;
    match error
    case ImageIdZero => facts.id == 0
    case ImageDigestMissing => facts.digest == 0
    case ImageSourceNotFrozen(lifecycle) => lifecycle == facts.lifecycle != FrozenForLink
    case ImageSourceEmpty => facts.byteLen == 0
    case ImageProofMismatch => image.proof != facts
    case ImageBytesLengthMismatch(expected, actual) => expected == facts.byteLen && actual == |image.bytes| != expected
    case ImageDigestMismatch => facts.digest != Digest(image.bytes)
    case LinkBufferProfileMissing => plan.profile.None?
    case LinkBufferSchemaMissing(profile) => plan.profile == Some(profile) && !HasSchema(profile)
    case LinkBufferSourceMissing => plan.source == 0
    case LinkBufferTransitionMismatch(profile) =>
      plan.profile == Some(profile) && plan.transition != Some(if profile == InlineCache then RwxToRx else RwToRx)
    case PatchWithoutAllocation => plan.patches > 0 && plan.allocation.None?
    case LayoutStateMismatch => plan.state != Some(Linking)
    case LayoutSourceMismatch => plan.source != facts.source
    case LayoutSizeMismatch => layout.codeSizeBytes != facts.byteLen
    case LayoutRelocationCountMismatch => |layout.relocations| != facts.relocationCount
    case LayoutRelocationsOutOfOrder => !Ordered(layout.relocations)
    case LinkBufferRelocationNotAllowed(profile, kind) =>
      plan.profile == Some(profile) && !KindAllowed(profile, kind) &&
      exists r :: r in layout.relocations && r.kind == kind
    case RelocationFailed(failure) =>
      ApplyAll(image.bytes, facts.architecture, layout.relocations) == Err(failure)
    case _ => false
  }

  lemma ImageErrors(image: Image, layout: Layout)
    requires ValidateImage(image).Err?
    ensures ImageErrorHolds(ValidateImage(image).error, image, layout)
  {
  }

  lemma LayoutErrors(image: Image, layout: Layout)
    requires ValidateLayout(image, layout).Err?
    ensures ImageErrorHolds(ValidateLayout(image, layout).error, image, layout)
  {
    InOrderIsOrdered(layout.relocations);
    if layout.plan.profile.Some? && SchemaFor(layout.plan.profile.value).Some? {
      var profile := layout.plan.profile.value;
      if CheckAllowed(profile, SchemaFor(profile).value, layout.relocations).Err? {
        var r := AllowedError(profile, SchemaFor(profile).value, layout.relocations);
        SchemaAllows(profile, r.kind);
      }
    }
  }

  /** An error of linking tells the truth of the image and its layout. */
  lemma LinkErrors(image: Image, layout: Layout)
    requires LinkImage(image, layout).Err?
    ensures ImageErrorHolds(LinkImage(image, layout).error, image, layout)
  {
    FinalValidationSucceeds(image, layout);
    if ValidateImage(image).Err? {
      ImageErrors(image, layout);
    } else if ValidateLayout(image, layout).Err? {
      LayoutErrors(image, layout);
    }
  }

  // ---- The same, in place ----

  method ApplyInPlace(code: array<Byte>, architecture: Option<AssemblerArchitecture>, r: Relocation)
    returns (result: Result<(), RelocationError>)
    modifies code
    ensures match ApplyCodeRelocation(old(code[..]), architecture, r)
            case Ok(patched) => result == Ok(()) && code[..] == patched
            case Err(error) => result == Err(error) && code[..] == old(code[..])
  {
    if architecture != Some(Arm64) || !(IsJump(r.kind) || IsCall(r.kind)) {
      return Err(ApplicationUnsupported(r.kind));
    }
    if r.target.None? {
      return Err(MissingTarget(r.kind));
    }
    var linked := LinkJumpOrCallInPlace(code, r.atOffset, r.target.value, IsCall(r.kind));
    result := match linked case Ok(_) => Ok(()) case Err(cause) => Err(Arm64Failed(r.atOffset, cause));
  }

  /** Patches a copy of the image's bytes, one relocation after the other. */
  method RelocateInPlace(output: array<Byte>, architecture: Option<AssemblerArchitecture>, rs: seq<Relocation>)
    returns (result: Result<(), RelocationError>)
    modifies output
    ensures match ApplyAll(old(output[..]), architecture, rs)
            case Ok(bytes) => result == Ok(()) && output[..] == bytes
            case Err(error) => result == Err(error)
  {
    var k := 0;
    while k < |rs|
      invariant 0 <= k <= |rs|
      invariant ApplyAll(output[..], architecture, rs[k..]) == ApplyAll(old(output[..]), architecture, rs)
    {
      assert rs[k..][0] == rs[k] && rs[k..][1..] == rs[k + 1..];
      result := ApplyInPlace(output, architecture, rs[k]);
      if result.Err? {
        return;
      }
      k := k + 1;
    }
    result := Ok(());
  }

  method LinkAssemblerByteImage(image: Image, layout: Layout) returns (result: Result<LinkedImage, ValidationError>)
    ensures result == LinkImage(image, layout)
  {
    var _ :- ValidateImage(image);
    var profile :- ValidateLayout(image, layout);
    var output := new Byte[|image.bytes|](i requires 0 <= i < |image.bytes| => image.bytes[i]);
    assert output[..] == image.bytes;
    var relocated := RelocateInPlace(output, image.facts.architecture, layout.relocations);
    if relocated.Err? {
      return Err(RelocationFailed(relocated.error));
    }
    var digest := ComputeDigest(output[..]);
    var linked := LinkedImage(image.facts.id, image.facts.digest, digest, layout.codeSizeBytes, |layout.relocations|,
                              profile, Linked, output[..]);
    var _ :- ValidateLinked(linked);
    result := Ok(linked);
  }
}
