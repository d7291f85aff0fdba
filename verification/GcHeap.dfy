/** The part of the collector's heap that precise targeted roots go through. */
module GcHeap {
  import opened Wrappers

  /** Rust wraps these ids around integers whose default, 0, means "none". */
  type HeapId = nat
  type CellId = nat
  type RootId = nat

  datatype RootKind = Handle | ExplicitRoot | VMRegister | Stack | JitCode | Host

  datatype RootAuthority =
    | HandleScope
    | ExplicitRootRegistry
    | VmRegisterFile
    | JitCodeRegistry
    | HostIntegration
    | ConservativeScanner

  datatype RootRecord = RootRecord(id: RootId, kind: RootKind, heap: HeapId)

  datatype TargetedRootRecord = TargetedRootRecord(root: RootRecord, target: CellId)

  datatype MutationKind = Register | Unregister | Retarget

  datatype RootSetError =
    | InvalidRootId(root: RootId)
    | InvalidRootTarget(root: RootId, target: CellId)
    | DuplicateRoot(root: RootId)
    | UnknownRoot(root: RootId)
    | RootHeapMismatch(expected: HeapId, actual: HeapId)
    | UnsupportedPreciseStackRoot(root: RootId)
    | AuthorityMismatch(kind: RootKind, authority: RootAuthority)

  datatype HeapError =
    | HeapMismatch(expected: HeapId, actual: HeapId)
    | UnknownCell(cell: CellId)
    | Root(error: RootSetError)

  // ---- Record validation ----

  function ValidateRootRecord(root: RootRecord): (r: Result<(), RootSetError>) {
    if root.id == 0 then Err(InvalidRootId(root.id))
    else if root.kind == Stack then Err(UnsupportedPreciseStackRoot(root.id))
    else Ok(())
  }

  function ValidateTargetedRootRecord(heap: HeapId, record: TargetedRootRecord): (r: Result<(), RootSetError>) {
    var _ :- ValidateRootRecord(record.root);
    if record.root.heap != heap then Err(RootHeapMismatch(heap, record.root.heap))
    else if record.target == 0 then Err(InvalidRootTarget(record.root.id, record.target))
    else Ok(())
  }

  predicate AuthorityMatches(kind: RootKind, authority: RootAuthority) {
    || (kind == Handle && authority == HandleScope)
    || (kind == ExplicitRoot && authority == ExplicitRootRegistry)
    || (kind == VMRegister && authority == VmRegisterFile)
    || (kind == JitCode && authority == JitCodeRegistry)
    || (kind == Host && authority == HostIntegration)
  }

  function ValidateRootSet(records: seq<TargetedRootRecord>, seen: set<RootId>): (r: Result<(), RootSetError>) {
    if records == [] then Ok(())
    else
      var _ :- ValidateRootRecord(records[0].root);
      if records[0].root.id in seen then Err(DuplicateRoot(records[0].root.id))
      else ValidateRootSet(records[1..], seen + {records[0].root.id})
  }

  function ValidateTargets(heap: HeapId, records: seq<TargetedRootRecord>): (r: Result<(), RootSetError>) {
    if records == [] then Ok(())
    else
      var _ :- ValidateTargetedRootRecord(heap, records[0]);
      ValidateTargets(heap, records[1..])
  }

  /** `TargetedRootSet::from_records`, kept for the error it may report. */
  function ValidateTargetedRootSet(heap: HeapId, records: seq<TargetedRootRecord>): (r: Result<(), RootSetError>) {
    var _ :- ValidateRootSet(records, {});
    ValidateTargets(heap, records)
  }

  predicate ValidRecord(heap: HeapId, record: TargetedRootRecord) {
    ValidateTargetedRootRecord(heap, record).Ok?
  }

  ghost predicate DistinctRoots(records: seq<TargetedRootRecord>) {
    forall i, j :: 0 <= i < j < |records| ==> records[i].root.id != records[j].root.id
  }

  ghost predicate ValidRootSet(heap: HeapId, records: seq<TargetedRootRecord>) {
    DistinctRoots(records) && forall i :: 0 <= i < |records| ==> ValidRecord(heap, records[i])
  }

  lemma {:induction false} ValidateRootSetOk(records: seq<TargetedRootRecord>, seen: set<RootId>)
    ensures ValidateRootSet(records, seen).Ok? <==>
      && DistinctRoots(records)
      && forall i :: 0 <= i < |records| ==> ValidateRootRecord(records[i].root).Ok? && records[i].root.id !in seen
  {
    if records != [] {
      var rest := records[1..];
      ValidateRootSetOk(rest, seen + {records[0].root.id});
      assert forall i :: 1 <= i < |records| ==> records[i] == rest[i - 1];
      assert DistinctRoots(records) <==>
        DistinctRoots(rest) && forall i :: 0 <= i < |rest| ==> rest[i].root.id != records[0].root.id;
    }
  }

  lemma {:induction false} ValidateTargetsOk(heap: HeapId, records: seq<TargetedRootRecord>)
    ensures ValidateTargets(heap, records).Ok? <==> forall i :: 0 <= i < |records| ==> ValidRecord(heap, records[i])
  {
    if records != [] {
      ValidateTargetsOk(heap, records[1..]);
      assert forall i :: 1 <= i < |records| ==> records[i] == records[1..][i - 1];
    }
  }

  /** The set is accepted exactly when its ids are distinct and each record is valid: it has an id, is not on the
      stack, belongs to the heap and targets a cell. */
  lemma ValidateTargetedRootSetExact(heap: HeapId, records: seq<TargetedRootRecord>)
    ensures ValidateTargetedRootSet(heap, records).Ok? <==>
      && (forall i, j :: 0 <= i < j < |records| ==> records[i].root.id != records[j].root.id)
      && (forall i :: 0 <= i < |records| ==>
            records[i].root.id != 0 && records[i].root.kind != Stack && records[i].root.heap == heap &&
            records[i].target != 0)
  {
    ValidateTargetedRootSetOk(heap, records);
  }

  lemma ValidateTargetedRootSetOk(heap: HeapId, records: seq<TargetedRootRecord>)
    ensures ValidateTargetedRootSet(heap, records).Ok? <==> ValidRootSet(heap, records)
  {
    ValidateRootSetOk(records, {});
    ValidateTargetsOk(heap, records);
    forall i | 0 <= i < |records| && ValidRecord(heap, records[i])
      ensures ValidateRootRecord(records[i].root).Ok? {}
  }

  // ---- The heap as a value, and its transitions ----

  datatype HeapState = HeapState(id: HeapId, cells: set<CellId>, roots: seq<TargetedRootRecord>)

  predicate HasRoot(roots: seq<TargetedRootRecord>, id: RootId) {
    exists r :: r in roots && r.root.id == id
  }

  function EvaluateMutation(heap: HeapState, kind: MutationKind, root: RootRecord, authority: RootAuthority):
    (r: Result<(), RootSetError>)
  {
    var _ :- ValidateRootRecord(root);
    if !AuthorityMatches(root.kind, authority) then Err(AuthorityMismatch(root.kind, authority))
    else if kind == Register && HasRoot(heap.roots, root.id) then Err(DuplicateRoot(root.id))
    else if kind != Register && !HasRoot(heap.roots, root.id) then Err(UnknownRoot(root.id))
    else Ok(())
  }

  function RequireRecord(heap: HeapState, record: TargetedRootRecord): (r: Result<(), HeapError>) {
    if record.root.heap != heap.id then Err(HeapMismatch(heap.id, record.root.heap))
    else
      var valid := ValidateTargetedRootRecord(heap.id, record);
      if valid.Err? then Err(Root(valid.error))
      else if record.target !in heap.cells then Err(UnknownCell(record.target))
      else Ok(())
  }

  function RegisterRoot(heap: HeapState, record: TargetedRootRecord, authority: RootAuthority):
    (r: Result<HeapState, HeapError>)
  {
    var _ :- RequireRecord(heap, record);
    var mutation := EvaluateMutation(heap, Register, record.root, authority);
    if mutation.Err? then Err(Root(mutation.error)) else Ok(heap.(roots := heap.roots + [record]))
  }

  /** The records with the one of the same root id replaced in place. */
  function ReplaceRoot(roots: seq<TargetedRootRecord>, record: TargetedRootRecord): (r: seq<TargetedRootRecord>)
    ensures |r| == |roots|
    ensures forall i :: 0 <= i < |roots| ==> r[i] == if roots[i].root.id == record.root.id then record else roots[i]
  {
    seq(|roots|, i requires 0 <= i < |roots| => if roots[i].root.id == record.root.id then record else roots[i])
  }

  function RetargetRoot(heap: HeapState, record: TargetedRootRecord, authority: RootAuthority):
    (r: Result<HeapState, HeapError>)
  {
    var _ :- RequireRecord(heap, record);
    var mutation := EvaluateMutation(heap, Retarget, record.root, authority);
    if mutation.Err? then Err(Root(mutation.error)) else Ok(heap.(roots := ReplaceRoot(heap.roots, record)))
  }

  function DropRoot(roots: seq<TargetedRootRecord>, id: RootId): (r: seq<TargetedRootRecord>)
    ensures forall record :: record in r <==> record in roots && record.root.id != id
    ensures DistinctRoots(roots) ==> DistinctRoots(r)
  {
    if roots == [] then []
    else
      var rest := DropRoot(roots[1..], id);
      assert roots == [roots[0]] + roots[1..];
      if roots[0].root.id == id then rest else
        assert forall i :: 0 <= i < |rest| ==> rest[i] in roots[1..];
        [roots[0]] + rest
  }

  function UnregisterRoot(heap: HeapState, root: RootRecord, authority: RootAuthority):
    (r: Result<HeapState, HeapError>)
  {
    if root.heap != heap.id then Err(HeapMismatch(heap.id, root.heap))
    else
      var mutation := EvaluateMutation(heap, Unregister, root, authority);
      if mutation.Err? then Err(Root(mutation.error)) else Ok(heap.(roots := DropRoot(heap.roots, root.id)))
  }

  // ---- When the transitions succeed ----

  /** Who may change roots of a kind. */
  function OwnerOf(kind: RootKind): Option<RootAuthority> {
    match kind
    case Handle => Some(HandleScope)
    case ExplicitRoot => Some(ExplicitRootRegistry)
    case VMRegister => Some(VmRegisterFile)
    case Stack => None
    case JitCode => Some(JitCodeRegistry)
    case Host => Some(HostIntegration)
  }

  /** Registering succeeds exactly for a new id, by the owner of its kind, with a live cell of the heap as the
      target; the record goes last. */
  lemma RegisterExact(heap: HeapState, record: TargetedRootRecord, authority: RootAuthority)
    ensures RegisterRoot(heap, record, authority).Ok? <==>
      && record.root.heap == heap.id && record.root.id != 0 && OwnerOf(record.root.kind) == Some(authority)
      && record.target != 0 && record.target in heap.cells
      && forall r :: r in heap.roots ==> r.root.id != record.root.id
    ensures RegisterRoot(heap, record, authority).Ok? ==>
      RegisterRoot(heap, record, authority) == Ok(HeapState(heap.id, heap.cells, heap.roots + [record]))
  {
  }

  /** Retargeting succeeds exactly for a known id; the record takes the place of the one with its id. */
  lemma RetargetExact(heap: HeapState, record: TargetedRootRecord, authority: RootAuthority)
    ensures RetargetRoot(heap, record, authority).Ok? <==>
      && record.root.heap == heap.id && record.root.id != 0 && OwnerOf(record.root.kind) == Some(authority)
      && record.target != 0 && record.target in heap.cells
      && exists r :: r in heap.roots && r.root.id == record.root.id
    ensures RetargetRoot(heap, record, authority).Ok? ==>
      var next := RetargetRoot(heap, record, authority).value;
      && next.id == heap.id && next.cells == heap.cells && |next.roots| == |heap.roots|
      && forall i :: 0 <= i < |heap.roots| ==>
           next.roots[i] == if heap.roots[i].root.id == record.root.id then record else heap.roots[i]
  {
  }

  /** Unregistering succeeds exactly for a known id; the other records keep their order. */
  lemma UnregisterExact(heap: HeapState, root: RootRecord, authority: RootAuthority)
    ensures UnregisterRoot(heap, root, authority).Ok? <==>
      && root.heap == heap.id && root.id != 0 && OwnerOf(root.kind) == Some(authority)
      && exists r :: r in heap.roots && r.root.id == root.id
    ensures UnregisterRoot(heap, root, authority).Ok? && DistinctRoots(heap.roots) ==>
      var next := UnregisterRoot(heap, root, authority).value;
      && next.id == heap.id && next.cells == heap.cells
      && forall k :: 0 <= k < |heap.roots| && heap.roots[k].root.id == root.id ==>
           next.roots == heap.roots[..k] + heap.roots[k + 1..]
  {
    forall k | DistinctRoots(heap.roots) && 0 <= k < |heap.roots| && heap.roots[k].root.id == root.id
      ensures DropRoot(heap.roots, root.id) == heap.roots[..k] + heap.roots[k + 1..]
    {
      DroppedAt(heap.roots, k);
    }
  }

  lemma {:induction false} NothingDropped(roots: seq<TargetedRootRecord>, id: RootId)
    requires forall i :: 0 <= i < |roots| ==> roots[i].root.id != id
    ensures DropRoot(roots, id) == roots
  {
    if roots != [] {
      NothingDropped(roots[1..], id);
    }
  }

  lemma {:induction false} DroppedAt(roots: seq<TargetedRootRecord>, k: nat)
    requires DistinctRoots(roots) && k < |roots|
    ensures DropRoot(roots, roots[k].root.id) == roots[..k] + roots[k + 1..]
  {
    if k == 0 {
      NothingDropped(roots[1..], roots[0].root.id);
    } else {
      DroppedAt(roots[1..], k - 1);
      assert roots[..k] + roots[k + 1..] == [roots[0]] + (roots[1..][..k - 1] + roots[1..][k..]);
    }
  }

  /** What is wrong when a transition of the roots is refused. */
  ghost predicate RootFault(heap: HeapState, kind: MutationKind, root: RootRecord, authority: RootAuthority,
                            e: RootSetError)
  {
    match e
    case InvalidRootId(id) => id == root.id == 0
    case UnsupportedPreciseStackRoot(id) => id == root.id && root.kind == Stack
    case AuthorityMismatch(rootKind, requested) =>
      rootKind == root.kind && requested == authority && OwnerOf(root.kind) != Some(authority)
    case DuplicateRoot(id) => kind == Register && id == root.id && exists r :: r in heap.roots && r.root.id == id
    case UnknownRoot(id) => kind != Register && id == root.id && forall r :: r in heap.roots ==> r.root.id != id
    case InvalidRootTarget(_, _) => false
    case RootHeapMismatch(_, _) => false
  }

  ghost predicate RecordFault(heap: HeapState, kind: MutationKind, record: TargetedRootRecord,
                              authority: RootAuthority, e: HeapError)
  {
    match e
    case HeapMismatch(expected, actual) => expected == heap.id && actual == record.root.heap && actual != expected
    case UnknownCell(cell) => cell == record.target && cell !in heap.cells
    case Root(InvalidRootTarget(id, target)) => id == record.root.id && target == record.target == 0
    case Root(error) => RootFault(heap, kind, record.root, authority, error)
  }

  /** A refusal names what is wrong. */
  lemma RefusalsHold(heap: HeapState, record: TargetedRootRecord, authority: RootAuthority)
    ensures var r := RegisterRoot(heap, record, authority);
            r.Err? ==> RecordFault(heap, Register, record, authority, r.error)
    ensures var r := RetargetRoot(heap, record, authority);
            r.Err? ==> RecordFault(heap, Retarget, record, authority, r.error)
  {
  }

  lemma UnregisterRefusalHolds(heap: HeapState, record: TargetedRootRecord, authority: RootAuthority)
    ensures match UnregisterRoot(heap, record.root, authority)
            case Ok(_) => true
            case Err(HeapMismatch(expected, actual)) =>
              expected == heap.id && actual == record.root.heap && actual != expected
            case Err(UnknownCell(_)) => false
            case Err(Root(error)) => RootFault(heap, Unregister, record.root, authority, error)
  {
  }

  function RootTargets(roots: seq<TargetedRootRecord>): set<CellId> {
    set r | r in roots :: r.target
  }

  /** A collection may reclaim any cells that no root targets. */
  function CollectCells(heap: HeapState, garbage: set<CellId>): HeapState {
    heap.(cells := heap.cells - (garbage - RootTargets(heap.roots)))
  }

  // ---- The heap as an object ----

  class Heap {
    const id: HeapId
    var cells: set<CellId>
    var targetedRoots: seq<TargetedRootRecord>

    constructor (id: HeapId)
      ensures State() == HeapState(id, {}, [])
    {
      this.id := id;
      cells := {};
      targetedRoots := [];
    }

    function State(): HeapState
      reads this
    {
      HeapState(id, cells, targetedRoots)
    }

    method RegisterTargetedRoot(record: TargetedRootRecord, authority: RootAuthority)
      returns (r: Result<TargetedRootRecord, HeapError>)
      modifies this
      ensures var spec := RegisterRoot(old(State()), record, authority);
        if spec.Ok? then r == Ok(record) && State() == spec.value else r == Err(spec.error) && State() == old(State())
    {
      var required := RequireRecord(State(), record);
      if required.Err? {
        return Err(required.error);
      }
      var mutation := EvaluateMutation(State(), Register, record.root, authority);
      if mutation.Err? {
        return Err(Root(mutation.error));
      }
      targetedRoots := targetedRoots + [record];
      return Ok(record);
    }

    /** The root keeps its position; `position` is what the source's id index would answer. */
    method RetargetTargetedRoot(record: TargetedRootRecord, authority: RootAuthority)
      returns (r: Result<TargetedRootRecord, HeapError>)
      requires DistinctRoots(targetedRoots)
      modifies this
      ensures var spec := RetargetRoot(old(State()), record, authority);
        if spec.Ok? then r == Ok(record) && State() == spec.value else r == Err(spec.error) && State() == old(State())
    {
      var required := RequireRecord(State(), record);
      if required.Err? {
        return Err(required.error);
      }
      var mutation := EvaluateMutation(State(), Retarget, record.root, authority);
      if mutation.Err? {
        return Err(Root(mutation.error));
      }
      var position := 0;
      while position < |targetedRoots| && targetedRoots[position].root.id != record.root.id
        invariant 0 <= position <= |targetedRoots|
        invariant forall i :: 0 <= i < position ==> targetedRoots[i].root.id != record.root.id
      {
        position := position + 1;
      }
      if position < |targetedRoots| {
        ghost var replaced := ReplaceRoot(targetedRoots, record);
        targetedRoots := targetedRoots[position := record];
        assert targetedRoots == replaced;
      }
      return Ok(record);
    }

    method UnregisterTargetedRoot(root: RootRecord, authority: RootAuthority)
      returns (r: Result<RootId, HeapError>)
      modifies this
      ensures var spec := UnregisterRoot(old(State()), root, authority);
        if spec.Ok? then r == Ok(root.id) && State() == spec.value else r == Err(spec.error) && State() == old(State())
    {
      if root.heap != id {
        return Err(HeapMismatch(id, root.heap));
      }
      var mutation := EvaluateMutation(State(), Unregister, root, authority);
      if mutation.Err? {
        return Err(Root(mutation.error));
      }
      targetedRoots := DropRoot(targetedRoots, root.id);
      return Ok(root.id);
    }
  }
}
