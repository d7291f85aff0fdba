/** Counted protection of API values: each protected cell is kept alive by one targeted root. */
module ApiProtection {
  import opened Wrappers
  import opened GcHeap

  type Slot = s: nat | s < 0x1_0000_0000
  type Owner = nat
  type ValueRef = nat

  const ROOT_ID_BASE: nat := 6_000_000
  const MAX_COUNT: nat := 0xffff_ffff

  function RootIdOf(slot: Slot): RootId {
    ROOT_ID_BASE + slot + 1
  }

  /** Root ids that belong to API protections. */
  predicate IsApiRootId(id: RootId) {
    ROOT_ID_BASE < id <= ROOT_ID_BASE + 0x1_0000_0000
  }

  datatype ProtectedValue = ProtectedValue(owner: Owner, value: ValueRef, slot: Option<Slot>)

  datatype Target = Cell(heap: HeapId, cell: CellId) | NoTarget

  datatype Entry = Entry(protected: ProtectedValue, count: nat, target: Target, root: Option<TargetedRootRecord>)

  type Entries = map<Slot, Entry>

  datatype Action = Protected | Unprotected | Retargeted

  datatype RootMutation = RootMutation(kind: MutationKind, record: TargetedRootRecord)

  datatype Plan = Plan(action: Action, slot: Slot, value: ValueRef, target: Target, count: nat,
                       mutation: Option<RootMutation>)

  datatype ProtectionError =
    | MissingProtectionSlot
    | UnknownProtectionSlot(slot: Slot)
    | SlotOwnerMismatch(slot: Slot, existingOwner: Owner, requestedOwner: Owner)
    | SlotValueMismatch(slot: Slot, existingValue: ValueRef, requestedValue: ValueRef)
    | SlotTargetMismatch(slot: Slot, existingTarget: Target, requestedTarget: Target)
    | DefaultTargetCell(slot: Slot)
    | SlotHeapMismatch(slot: Slot, expected: HeapId, actual: HeapId)
    | ProtectionCountOverflow(slot: Slot)
    | RootSet(rootError: RootSetError)
    | HeapRejected(heapError: HeapError)

  // ---- Roots of the registry, in slot order ----

  lemma SmallestSlot(slots: set<Slot>)
    requires slots != {}
    ensures exists m :: m in slots && forall x :: x in slots ==> m <= x
  {
    var m :| m in slots;
    while exists x :: x in slots && x < m
      invariant m in slots
      decreases m
    {
      var x :| x in slots && x < m;
      m := x;
    }
  }

  ghost predicate Increasing(slots: seq<Slot>) {
    forall i, j :: 0 <= i < j < |slots| ==> slots[i] < slots[j]
  }

  lemma IncreasingCons(m: Slot, rest: seq<Slot>)
    requires Increasing(rest) && forall s :: s in rest ==> m < s
    ensures Increasing([m] + rest)
  {
    var all := [m] + rest;
    forall i, j | 0 <= i < j < |all|
      ensures all[i] < all[j]
    {
      assert all[j] == rest[j - 1] && rest[j - 1] in rest;
      if i > 0 {
        assert all[i] == rest[i - 1];
      }
    }
  }

  /** The order in which a `BTreeMap` yields its keys. */
  function InOrder(slots: set<Slot>): (r: seq<Slot>)
    ensures forall s :: s in r <==> s in slots
    ensures Increasing(r)
  {
    if slots == {} then []
    else
      SmallestSlot(slots);
      var m :| m in slots && forall x :: x in slots ==> m <= x;
      var rest := InOrder(slots - {m});
      IncreasingCons(m, rest);
      [m] + rest
  }

  function OptionToSeq<T>(o: Option<T>): seq<T> {
    if o.Some? then [o.value] else []
  }

  function RootsAt(entries: Entries, slots: seq<Slot>): seq<TargetedRootRecord>
    requires forall s :: s in slots ==> s in entries
  {
    if slots == [] then []
    else
      assert slots == [slots[0]] + slots[1..];
      OptionToSeq(entries[slots[0]].root) + RootsAt(entries, slots[1..])
  }

  function TargetedRoots(entries: Entries): seq<TargetedRootRecord> {
    RootsAt(entries, InOrder(entries.Keys))
  }

  function RootsReplacing(entries: Entries, slots: seq<Slot>, slot: Slot, replacement: Option<TargetedRootRecord>):
    seq<TargetedRootRecord>
    requires forall s :: s in slots ==> s in entries
  {
    if slots == [] then []
    else
      assert slots == [slots[0]] + slots[1..];
      OptionToSeq(if slots[0] == slot then replacement else entries[slots[0]].root)
        + RootsReplacing(entries, slots[1..], slot, replacement)
  }

  /** The list that is validated before `slot` gets the root `replacement`. */
  function TargetedRootsWith(entries: Entries, slot: Slot, replacement: Option<TargetedRootRecord>):
    seq<TargetedRootRecord>
  {
    RootsReplacing(entries, InOrder(entries.Keys), slot, replacement)
      + if slot in entries then [] else OptionToSeq(replacement)
  }

  // ---- Planning ----

  function TargetedRootFor(heap: HeapId, slot: Slot, target: Target):
    (r: Result<Option<TargetedRootRecord>, ProtectionError>)
  {
    match target
    case Cell(targetHeap, cell) =>
      if targetHeap != heap then Err(SlotHeapMismatch(slot, heap, targetHeap))
      else if cell == 0 then Err(DefaultTargetCell(slot))
      else Ok(Some(TargetedRootRecord(RootRecord(RootIdOf(slot), Handle, targetHeap), cell)))
    case NoTarget => Ok(None)
  }

  function ValidateSameSlot(slot: Slot, existing: Entry, requested: ProtectedValue, target: Target):
    (r: Result<(), ProtectionError>)
  {
    if existing.protected.owner != requested.owner then
      Err(SlotOwnerMismatch(slot, existing.protected.owner, requested.owner))
    else if existing.protected.value != requested.value then
      Err(SlotValueMismatch(slot, existing.protected.value, requested.value))
    else if existing.target != target then
      Err(SlotTargetMismatch(slot, existing.target, target))
    else Ok(())
  }

  function MutationOf(kind: MutationKind, root: Option<TargetedRootRecord>): Option<RootMutation> {
    if root.Some? then Some(RootMutation(kind, root.value)) else None
  }

  function PlanProtect(heap: HeapId, entries: Entries, protected: ProtectedValue, target: Target):
    (r: Result<(Entries, Plan), ProtectionError>)
  {
    if protected.slot.None? then Err(MissingProtectionSlot)
    else
      var slot := protected.slot.value;
      var root :- TargetedRootFor(heap, slot, target);
      if slot in entries then
        var existing := entries[slot];
        var _ :- ValidateSameSlot(slot, existing, protected, target);
        if existing.count == MAX_COUNT then Err(ProtectionCountOverflow(slot))
        else
          Ok((entries[slot := existing.(count := existing.count + 1)],
              Plan(Protected, slot, protected.value, target, existing.count + 1, None)))
      else
        var valid := ValidateTargetedRootSet(heap, TargetedRootsWith(entries, slot, root));
        if valid.Err? then Err(RootSet(valid.error))
        else
          Ok((entries[slot := Entry(protected, 1, target, root)],
              Plan(Protected, slot, protected.value, target, 1, MutationOf(Register, root))))
  }

  /** The entries are a separate result: the last unprotection removes the entry before it
      validates what is left. */
  function PlanUnprotect(heap: HeapId, entries: Entries, slot: Slot): (r: (Entries, Result<Plan, ProtectionError>)) {
    if slot !in entries || entries[slot].count == 0 then (entries, Err(UnknownProtectionSlot(slot)))
    else
      var existing := entries[slot];
      var next := existing.count - 1;
      if next > 0 then
        (entries[slot := existing.(count := next)],
         Ok(Plan(Unprotected, slot, existing.protected.value, existing.target, next, None)))
      else
        var rest := entries - {slot};
        var valid := ValidateTargetedRootSet(heap, TargetedRoots(rest));
        if valid.Err? then (rest, Err(RootSet(valid.error)))
        else
          (rest, Ok(Plan(Unprotected, slot, existing.protected.value, existing.target, 0,
                         MutationOf(Unregister, existing.root))))
  }

  function RetargetMutation(existing: Entry, target: Target, root: Option<TargetedRootRecord>): Option<RootMutation> {
    match (existing.root, root)
    case (Some(_), Some(record)) => if existing.target != target then Some(RootMutation(Retarget, record)) else None
    case (None, Some(record)) => Some(RootMutation(Register, record))
    case (Some(record), None) => Some(RootMutation(Unregister, record))
    case (None, None) => None
  }

  function PlanRetarget(heap: HeapId, entries: Entries, protected: ProtectedValue, target: Target):
    (r: Result<(Entries, Plan), ProtectionError>)
  {
    if protected.slot.None? then Err(MissingProtectionSlot)
    else
      var slot := protected.slot.value;
      if slot !in entries then Err(UnknownProtectionSlot(slot))
      else
        var existing := entries[slot];
        if existing.protected.owner != protected.owner then
          Err(SlotOwnerMismatch(slot, existing.protected.owner, protected.owner))
        else
          var root :- TargetedRootFor(heap, slot, target);
          var valid := ValidateTargetedRootSet(heap, TargetedRootsWith(entries, slot, root));
          if valid.Err? then Err(RootSet(valid.error))
          else
            Ok((entries[slot := Entry(protected, existing.count, target, root)],
                Plan(Retargeted, slot, protected.value, target, existing.count,
                     RetargetMutation(existing, target, root))))
  }

  // ---- Applying a plan to the heap ----

  function ApplyMutation(heap: HeapState, mutation: RootMutation): (r: Result<HeapState, HeapError>) {
    match mutation.kind
    case Register => RegisterRoot(heap, mutation.record, HandleScope)
    case Unregister => UnregisterRoot(heap, mutation.record.root, HandleScope)
    case Retarget => RetargetRoot(heap, mutation.record, HandleScope)
  }

  /** The registry and the heap it roots values in. */
  datatype World = World(registryHeap: HeapId, entries: Entries, heap: HeapState)

  type Outcome = Result<Plan, ProtectionError>

  /** Publish the planned entries, unless the heap rejects the plan's root mutation. */
  function Commit(w: World, planned: Entries, plan: Plan): (World, Outcome) {
    if plan.mutation.None? then (w.(entries := planned), Ok(plan))
    else
      var applied := ApplyMutation(w.heap, plan.mutation.value);
      if applied.Err? then (w, Err(HeapRejected(applied.error)))
      else (w.(entries := planned, heap := applied.value), Ok(plan))
  }

  function ProtectWorld(w: World, protected: ProtectedValue, target: Target): (World, Outcome) {
    var planned := PlanProtect(w.registryHeap, w.entries, protected, target);
    if planned.Err? then (w, Err(planned.error)) else Commit(w, planned.value.0, planned.value.1)
  }

  function UnprotectWorld(w: World, slot: Slot): (World, Outcome) {
    var planned := PlanUnprotect(w.registryHeap, w.entries, slot);
    if planned.1.Err? then (w.(entries := planned.0), Err(planned.1.error))
    else Commit(w, planned.0, planned.1.value)
  }

  function RetargetWorld(w: World, protected: ProtectedValue, target: Target): (World, Outcome) {
    var planned := PlanRetarget(w.registryHeap, w.entries, protected, target);
    if planned.Err? then (w, Err(planned.error)) else Commit(w, planned.value.0, planned.value.1)
  }

  // ---- The registry as an object ----

  class ApiProtectionRegistry {
    const heapId: HeapId
    var entries: Entries

    constructor (heapId: HeapId)
      ensures this.heapId == heapId && entries == map[]
    {
      this.heapId := heapId;
      entries := map[];
    }

    function WorldWith(heap: Heap): World
      reads this, heap
    {
      World(heapId, entries, heap.State())
    }

    method Protect(protected: ProtectedValue, target: Target) returns (r: Outcome)
      modifies this
      ensures var spec := PlanProtect(heapId, old(entries), protected, target);
        if spec.Ok? then entries == spec.value.0 && r == Ok(spec.value.1)
        else entries == old(entries) && r == Err(spec.error)
    {
      if protected.slot.None? {
        return Err(MissingProtectionSlot);
      }
      var slot := protected.slot.value;
      var root := TargetedRootFor(heapId, slot, target);
      if root.Err? {
        return Err(root.error);
      }
      if slot in entries {
        var existing := entries[slot];
        var same := ValidateSameSlot(slot, existing, protected, target);
        if same.Err? {
          return Err(same.error);
        }
        if existing.count == MAX_COUNT {
          return Err(ProtectionCountOverflow(slot));
        }
        var updated := existing.(count := existing.count + 1);
        entries := entries[slot := updated];
        return Ok(Plan(Protected, slot, protected.value, target, updated.count, None));
      }
      var valid := ValidateTargetedRootSet(heapId, TargetedRootsWith(entries, slot, root.value));
      if valid.Err? {
        return Err(RootSet(valid.error));
      }
      entries := entries[slot := Entry(protected, 1, target, root.value)];
      return Ok(Plan(Protected, slot, protected.value, target, 1, MutationOf(Register, root.value)));
    }

    method Unprotect(slot: Slot) returns (r: Outcome)
      modifies this
      ensures (entries, r) == PlanUnprotect(heapId, old(entries), slot)
    {
      if slot !in entries || entries[slot].count == 0 {
        return Err(UnknownProtectionSlot(slot));
      }
      var existing := entries[slot];
      var next := existing.count - 1;
      if next > 0 {
        entries := entries[slot := existing.(count := next)];
        return Ok(Plan(Unprotected, slot, existing.protected.value, existing.target, next, None));
      }
      entries := entries - {slot};
      var valid := ValidateTargetedRootSet(heapId, TargetedRoots(entries));
      if valid.Err? {
        return Err(RootSet(valid.error));
      }
      return Ok(Plan(Unprotected, slot, existing.protected.value, existing.target, 0,
                     MutationOf(Unregister, existing.root)));
    }

    method RetargetSlot(protected: ProtectedValue, target: Target) returns (r: Outcome)
      modifies this
      ensures var spec := PlanRetarget(heapId, old(entries), protected, target);
        if spec.Ok? then entries == spec.value.0 && r == Ok(spec.value.1)
        else entries == old(entries) && r == Err(spec.error)
    {
      if protected.slot.None? {
        return Err(MissingProtectionSlot);
      }
      var slot := protected.slot.value;
      if slot !in entries {
        return Err(UnknownProtectionSlot(slot));
      }
      var existing := entries[slot];
      if existing.protected.owner != protected.owner {
        return Err(SlotOwnerMismatch(slot, existing.protected.owner, protected.owner));
      }
      var root := TargetedRootFor(heapId, slot, target);
      if root.Err? {
        return Err(root.error);
      }
      var valid := ValidateTargetedRootSet(heapId, TargetedRootsWith(entries, slot, root.value));
      if valid.Err? {
        return Err(RootSet(valid.error));
      }
      entries := entries[slot := Entry(protected, existing.count, target, root.value)];
      return Ok(Plan(Retargeted, slot, protected.value, target, existing.count,
                     RetargetMutation(existing, target, root.value)));
    }

    method ApplyPlanToHeap(heap: Heap, entriesBefore: Entries, plan: Plan) returns (r: Outcome)
      requires DistinctRoots(heap.targetedRoots)
      modifies this, heap
      ensures var spec := Commit(World(heapId, entriesBefore, old(heap.State())), old(entries), plan);
        WorldWith(heap) == spec.0 && r == spec.1
    {
      if plan.mutation.None? {
        return Ok(plan);
      }
      var mutation := plan.mutation.value;
      var failure: Option<HeapError> := None;
      match mutation.kind {
        case Register =>
          var registered := heap.RegisterTargetedRoot(mutation.record, HandleScope);
          if registered.Err? { failure := Some(registered.error); }
        case Unregister =>
          var unregistered := heap.UnregisterTargetedRoot(mutation.record.root, HandleScope);
          if unregistered.Err? { failure := Some(unregistered.error); }
        case Retarget =>
          var retargeted := heap.RetargetTargetedRoot(mutation.record, HandleScope);
          if retargeted.Err? { failure := Some(retargeted.error); }
      }
      if failure.Some? {
        entries := entriesBefore;
        return Err(HeapRejected(failure.value));
      }
      return Ok(plan);
    }

    method ProtectValue(heap: Heap, protected: ProtectedValue, target: Target) returns (r: Outcome)
      requires DistinctRoots(heap.targetedRoots)
      modifies this, heap
      ensures (WorldWith(heap), r) == ProtectWorld(old(WorldWith(heap)), protected, target)
    {
      var before := entries;
      r := Protect(protected, target);
      if r.Ok? {
        r := ApplyPlanToHeap(heap, before, r.value);
      }
    }

    method UnprotectValue(heap: Heap, slot: Slot) returns (r: Outcome)
      requires DistinctRoots(heap.targetedRoots)
      modifies this, heap
      ensures (WorldWith(heap), r) == UnprotectWorld(old(WorldWith(heap)), slot)
    {
      var before := entries;
      r := Unprotect(slot);
      if r.Ok? {
        r := ApplyPlanToHeap(heap, before, r.value);
      }
    }

    method RetargetValue(heap: Heap, protected: ProtectedValue, target: Target) returns (r: Outcome)
      requires DistinctRoots(heap.targetedRoots)
      modifies this, heap
      ensures (WorldWith(heap), r) == RetargetWorld(old(WorldWith(heap)), protected, target)
    {
      var before := entries;
      r := RetargetSlot(protected, target);
      if r.Ok? {
        r := ApplyPlanToHeap(heap, before, r.value);
      }
    }
  }
}
