/** What every run of protections, other root users and collections keeps. */
module ApiProtectionRuns {
  import opened Wrappers
  import Sequences
  import opened GcHeap
  import opened ApiProtection

  // ---- The invariant ----

  ghost predicate ValidEntry(heap: HeapId, slot: Slot, entry: Entry) {
    && entry.protected.slot == Some(slot)
    && 0 < entry.count <= MAX_COUNT
    && TargetedRootFor(heap, slot, entry.target) == Ok(entry.root)
  }

  ghost predicate ValidEntries(heap: HeapId, entries: Entries) {
    forall slot :: slot in entries ==> ValidEntry(heap, slot, entries[slot])
  }

  ghost predicate ValidHeap(heap: HeapState) {
    ValidRootSet(heap.id, heap.roots) && forall r :: r in heap.roots ==> r.target in heap.cells
  }

  ghost predicate HoldsRoot(entries: Entries, record: TargetedRootRecord) {
    exists slot :: slot in entries && entries[slot].root == Some(record)
  }

  /** Among the ids reserved for the API, the heap's roots are exactly the registry's. */
  ghost predicate RootsAgree(w: World) {
    forall record: TargetedRootRecord ::
      IsApiRootId(record.root.id) ==> (record in w.heap.roots <==> HoldsRoot(w.entries, record))
  }

  ghost predicate Invariant(w: World) {
    ValidEntries(w.registryHeap, w.entries) && ValidHeap(w.heap) && RootsAgree(w)
  }

  // ---- Validation of the registry's own roots never fails ----

  lemma {:induction false} ReplacedRootsValid(heap: HeapId, entries: Entries, slots: seq<Slot>, slot: Slot,
                                              replacement: Option<TargetedRootRecord>, target: Target)
    requires ValidEntries(heap, entries) && TargetedRootFor(heap, slot, target) == Ok(replacement)
    requires Increasing(slots) && forall s :: s in slots ==> s in entries
    ensures ValidRootSet(heap, RootsReplacing(entries, slots, slot, replacement))
    ensures forall r :: r in RootsReplacing(entries, slots, slot, replacement) ==>
      exists s :: s in slots && r.root.id == RootIdOf(s)
  {
    if slots != [] {
      var rest := RootsReplacing(entries, slots[1..], slot, replacement);
      ReplacedRootsValid(heap, entries, slots[1..], slot, replacement, target);
      assert slots == [slots[0]] + slots[1..];
      assert ValidEntry(heap, slots[0], entries[slots[0]]);
      var first := OptionToSeq(if slots[0] == slot then replacement else entries[slots[0]].root);
      assert forall r :: r in first ==> r.root.id == RootIdOf(slots[0]) && ValidRecord(heap, r);
      forall r | r in rest ensures r.root.id != RootIdOf(slots[0]) {
        var s :| s in slots[1..] && r.root.id == RootIdOf(s);
      }
      ConcatRootSets(heap, first, rest);
    }
  }

  lemma ConcatRootSets(heap: HeapId, a: seq<TargetedRootRecord>, b: seq<TargetedRootRecord>)
    requires ValidRootSet(heap, a) && ValidRootSet(heap, b)
    requires forall r, q :: r in a && q in b ==> r.root.id != q.root.id
    ensures ValidRootSet(heap, a + b)
  {
    var c := a + b;
    forall i, j | 0 <= i < j < |c| ensures c[i].root.id != c[j].root.id {
      if i < |a| <= j { assert a[i] in a && b[j - |a|] in b; }
    }
  }

  lemma TargetedRootsWithValid(heap: HeapId, entries: Entries, slot: Slot, replacement: Option<TargetedRootRecord>,
                               target: Target)
    requires ValidEntries(heap, entries) && TargetedRootFor(heap, slot, target) == Ok(replacement)
    ensures ValidateTargetedRootSet(heap, TargetedRootsWith(entries, slot, replacement)).Ok?
  {
    var slots := InOrder(entries.Keys);
    var replaced := RootsReplacing(entries, slots, slot, replacement);
    ReplacedRootsValid(heap, entries, slots, slot, replacement, target);
    var roots := TargetedRootsWith(entries, slot, replacement);
    if slot in entries {
      assert roots == replaced;
    } else {
      forall r | r in replaced ensures r.root.id != RootIdOf(slot) {
        var s :| s in slots && r.root.id == RootIdOf(s);
        assert s in entries;
      }
      ConcatRootSets(heap, replaced, OptionToSeq(replacement));
    }
    ValidateTargetedRootSetOk(heap, roots);
  }

  lemma {:induction false} RootsReplacingSame(entries: Entries, slots: seq<Slot>, slot: Slot)
    requires slot in entries && forall s :: s in slots ==> s in entries
    ensures RootsReplacing(entries, slots, slot, entries[slot].root) == RootsAt(entries, slots)
  {
    if slots != [] {
      assert slots == [slots[0]] + slots[1..];
      RootsReplacingSame(entries, slots[1..], slot);
    }
  }

  lemma TargetedRootsValid(heap: HeapId, entries: Entries)
    requires ValidEntries(heap, entries)
    ensures ValidateTargetedRootSet(heap, TargetedRoots(entries)).Ok?
  {
    if slot :| slot in entries {
      assert ValidEntry(heap, slot, entries[slot]);
      RootsReplacingSame(entries, InOrder(entries.Keys), slot);
      assert TargetedRootsWith(entries, slot, entries[slot].root) == TargetedRoots(entries);
      TargetedRootsWithValid(heap, entries, slot, entries[slot].root, entries[slot].target);
    } else {
      assert entries.Keys == {};
    }
  }

  // ---- The list validated before an insertion is the list of roots after it ----

  lemma {:induction false} IncreasingUnique(a: seq<Slot>, b: seq<Slot>)
    requires Increasing(a) && Increasing(b)
    requires forall s :: s in a <==> s in b
    ensures a == b
  {
    Sequences.HasElement(a);
    Sequences.HasElement(b);
    if a != [] {
      assert a[0] in b && b[0] in a;
      assert a == [a[0]] + a[1..] && b == [b[0]] + b[1..];
      assert a[0] == b[0];
      forall s ensures s in a[1..] <==> s in b[1..] {
        assert s in a <==> s == a[0] || s in a[1..];
        assert s in b <==> s == b[0] || s in b[1..];
        assert a[0] !in a[1..] && b[0] !in b[1..];
      }
      IncreasingUnique(a[1..], b[1..]);
    }
  }

  lemma {:induction false} RootsAtConcat(entries: Entries, a: seq<Slot>, b: seq<Slot>)
    requires forall s :: s in a + b ==> s in entries
    ensures (forall s :: s in a ==> s in a + b) && (forall s :: s in b ==> s in a + b)
    ensures RootsAt(entries, a + b) == RootsAt(entries, a) + RootsAt(entries, b)
  {
    if a == [] {
      assert a + b == b;
    } else {
      assert (a + b)[1..] == a[1..] + b;
      assert a + b == [a[0]] + (a[1..] + b);
      RootsAtConcat(entries, a[1..], b);
    }
  }

  lemma {:induction false} RootsReplacingUpdated(entries: Entries, slots: seq<Slot>, slot: Slot, entry: Entry)
    requires forall s :: s in slots ==> s in entries
    ensures RootsReplacing(entries, slots, slot, entry.root) == RootsAt(entries[slot := entry], slots)
  {
    if slots != [] {
      assert slots == [slots[0]] + slots[1..];
      RootsReplacingUpdated(entries, slots[1..], slot, entry);
    }
  }

  lemma IncreasingWithout(slots: seq<Slot>, i: nat)
    requires Increasing(slots) && i < |slots|
    ensures Increasing(slots[..i] + slots[i + 1..])
    ensures forall s :: s in slots[..i] + slots[i + 1..] <==> s in slots && s != slots[i]
  {
    var head, tail := slots[..i], slots[i + 1..];
    assert slots == head + [slots[i]] + tail;
    forall s ensures s in head + tail <==> s in slots && s != slots[i] {
      assert s in slots <==> s in head || s == slots[i] || s in tail;
      if s in head {
        var k :| 0 <= k < |head| && head[k] == s;
        assert slots[k] < slots[i];
      }
      if s in tail {
        var k :| 0 <= k < |tail| && tail[k] == s;
        assert slots[i] < slots[i + 1 + k];
      }
    }
  }

  /** A new slot stands somewhere in the order, between slots whose order it leaves alone. */
  lemma InOrderInsert(slots: set<Slot>, slot: Slot) returns (head: seq<Slot>, tail: seq<Slot>)
    requires slot !in slots
    ensures InOrder(slots + {slot}) == head + [slot] + tail
    ensures InOrder(slots) == head + tail
  {
    head, tail := SplitAtSlot(InOrder(slots), InOrder(slots + {slot}), slot);
  }

  lemma SplitAtSlot(before: seq<Slot>, after: seq<Slot>, slot: Slot) returns (head: seq<Slot>, tail: seq<Slot>)
    requires Increasing(before) && Increasing(after) && slot !in before
    requires forall s :: s in after <==> s in before || s == slot
    ensures after == head + [slot] + tail && before == head + tail
  {
    assert slot in after;
    var i :| 0 <= i < |after| && after[i] == slot;
    head, tail := after[..i], after[i + 1..];
    assert after == head + [slot] + tail;
    IncreasingWithout(after, i);
    IncreasingUnique(head + tail, before);
  }

  lemma ValidatedRootsAreNextRoots(entries: Entries, slot: Slot, entry: Entry)
    ensures multiset(TargetedRootsWith(entries, slot, entry.root)) == multiset(TargetedRoots(entries[slot := entry]))
  {
    var updated := entries[slot := entry];
    RootsReplacingUpdated(entries, InOrder(entries.Keys), slot, entry);
    if slot in entries {
      assert updated.Keys == entries.Keys;
    } else {
      assert updated.Keys == entries.Keys + {slot};
      var head, tail := InOrderInsert(entries.Keys, slot);
      NewSlotRoots(updated, slot, head, tail);
      assert TargetedRootsWith(entries, slot, entry.root) ==
        RootsAt(updated, InOrder(entries.Keys)) + OptionToSeq(entry.root);
    }
  }

  lemma NewSlotRoots(entries: Entries, slot: Slot, head: seq<Slot>, tail: seq<Slot>)
    requires slot in entries && forall s :: s in head + [slot] + tail ==> s in entries
    ensures forall s :: s in head + tail ==> s in head + [slot] + tail
    ensures multiset(RootsAt(entries, head + [slot] + tail)) ==
      multiset(RootsAt(entries, head + tail)) + multiset(OptionToSeq(entries[slot].root))
  {
    RootsAtConcat(entries, head + [slot], tail);
    RootsAtConcat(entries, head, [slot]);
    assert RootsAt(entries, [slot]) == OptionToSeq(entries[slot].root) + RootsAt(entries, [slot][1..]);
    RootsAtConcat(entries, head, tail);
  }

  // ---- One step of a run ----

  datatype Op =
    | Protect(protected: ProtectedValue, target: Target)
    | Unprotect(slot: Slot)
    | Retarget(protected: ProtectedValue, target: Target)
    | Allocate(cell: CellId)
    | Collect(garbage: set<CellId>)
    | RegisterOther(record: TargetedRootRecord, authority: RootAuthority)
    | RetargetOther(record: TargetedRootRecord, authority: RootAuthority)
    | UnregisterOther(root: RootRecord, authority: RootAuthority)

  /** Other root users keep out of the ids reserved for the API. */
  predicate Admissible(op: Op) {
    match op
    case RegisterOther(record, _) => !IsApiRootId(record.root.id)
    case RetargetOther(record, _) => !IsApiRootId(record.root.id)
    case UnregisterOther(root, _) => !IsApiRootId(root.id)
    case _ => true
  }

  function WithHeap(w: World, next: Result<HeapState, HeapError>): (World, bool) {
    if next.Ok? then (w.(heap := next.value), true) else (w, false)
  }

  /** The world after the step, and whether the step succeeded. */
  function Step(w: World, op: Op): (World, bool) {
    match op
    case Protect(protected, target) => var (next, r) := ProtectWorld(w, protected, target); (next, r.Ok?)
    case Unprotect(slot) => var (next, r) := UnprotectWorld(w, slot); (next, r.Ok?)
    case Retarget(protected, target) => var (next, r) := RetargetWorld(w, protected, target); (next, r.Ok?)
    case Allocate(cell) => (w.(heap := w.heap.(cells := w.heap.cells + {cell})), true)
    case Collect(garbage) => (w.(heap := CollectCells(w.heap, garbage)), true)
    case RegisterOther(record, authority) => WithHeap(w, RegisterRoot(w.heap, record, authority))
    case RetargetOther(record, authority) => WithHeap(w, RetargetRoot(w.heap, record, authority))
    case UnregisterOther(root, authority) => WithHeap(w, UnregisterRoot(w.heap, root, authority))
  }

  // ---- Heap transitions keep the heap valid ----

  lemma RegisterKeepsHeap(heap: HeapState, record: TargetedRootRecord, authority: RootAuthority)
    requires ValidHeap(heap) && RegisterRoot(heap, record, authority).Ok?
    ensures var next := RegisterRoot(heap, record, authority).value;
      && ValidHeap(next) && !HasRoot(heap.roots, record.root.id)
      && forall r :: r in next.roots <==> (r in heap.roots && r.root.id != record.root.id) || r == record
  {
    assert forall r :: r in heap.roots ==> r.root.id != record.root.id;
    assert forall i :: 0 <= i < |heap.roots| ==> heap.roots[i] in heap.roots;
  }

  lemma UnregisterKeepsHeap(heap: HeapState, root: RootRecord, authority: RootAuthority)
    requires ValidHeap(heap) && UnregisterRoot(heap, root, authority).Ok?
    ensures var next := UnregisterRoot(heap, root, authority).value;
      ValidHeap(next) && forall r :: r in next.roots <==> r in heap.roots && r.root.id != root.id
  {
    var next := UnregisterRoot(heap, root, authority).value;
    forall i | 0 <= i < |next.roots| ensures ValidRecord(heap.id, next.roots[i]) {
      assert next.roots[i] in heap.roots;
    }
  }

  lemma RetargetKeepsHeap(heap: HeapState, record: TargetedRootRecord, authority: RootAuthority)
    requires ValidHeap(heap) && RetargetRoot(heap, record, authority).Ok?
    ensures var next := RetargetRoot(heap, record, authority).value;
      && ValidHeap(next)
      && forall r :: r in next.roots <==> (r in heap.roots && r.root.id != record.root.id) || r == record
  {
    var next := RetargetRoot(heap, record, authority).value;
    var previous :| previous in heap.roots && previous.root.id == record.root.id;
    var k :| 0 <= k < |heap.roots| && heap.roots[k] == previous;
    assert next.roots[k] == record;
    forall r ensures r in next.roots <==> (r in heap.roots && r.root.id != record.root.id) || r == record {
      if r in heap.roots && r.root.id != record.root.id {
        var i :| 0 <= i < |heap.roots| && heap.roots[i] == r;
        assert next.roots[i] == r;
      }
    }
  }

  // ---- Registry transitions keep the invariant ----

  /** A valid heap holds at most one root per id, and the registry says which for its own ids. */
  lemma RootOfSlot(w: World, slot: Slot, r: TargetedRootRecord)
    requires Invariant(w) && r in w.heap.roots && r.root.id == RootIdOf(slot)
    ensures slot in w.entries && w.entries[slot].root == Some(r)
  {
    assert IsApiRootId(r.root.id) && HoldsRoot(w.entries, r);
    var s :| s in w.entries && w.entries[s].root == Some(r);
    assert ValidEntry(w.registryHeap, s, w.entries[s]);
  }

  lemma EntryRootInHeap(w: World, slot: Slot)
    requires Invariant(w) && slot in w.entries && w.entries[slot].root.Some?
    ensures w.entries[slot].root.value in w.heap.roots
    ensures w.entries[slot].root.value.root.id == RootIdOf(slot) && w.registryHeap == w.heap.id
  {
    var record := w.entries[slot].root.value;
    assert ValidEntry(w.registryHeap, slot, w.entries[slot]);
    assert IsApiRootId(record.root.id) && HoldsRoot(w.entries, record);
    var i :| 0 <= i < |w.heap.roots| && w.heap.roots[i] == record;
    assert ValidRecord(w.heap.id, w.heap.roots[i]);
  }

  /** Storing an entry together with its root, in place of whatever root the slot had. */
  lemma StoreKeeps(w: World, slot: Slot, entry: Entry, heap: HeapState)
    requires Invariant(w) && ValidEntry(w.registryHeap, slot, entry) && ValidHeap(heap)
    requires forall r :: r in heap.roots <==>
      (r in w.heap.roots && r.root.id != RootIdOf(slot)) || entry.root == Some(r)
    ensures Invariant(w.(entries := w.entries[slot := entry], heap := heap))
  {
    var next := w.(entries := w.entries[slot := entry], heap := heap);
    forall record: TargetedRootRecord | IsApiRootId(record.root.id)
      ensures record in heap.roots <==> HoldsRoot(next.entries, record)
    {
      if HoldsRoot(next.entries, record) {
        var s :| s in next.entries && next.entries[s].root == Some(record);
        assert ValidEntry(w.registryHeap, s, next.entries[s]);
        if s != slot {
          assert s in w.entries && HoldsRoot(w.entries, record);
        }
      }
      if record in heap.roots {
        if entry.root == Some(record) {
          assert slot in next.entries && next.entries[slot].root == Some(record);
        } else {
          assert HoldsRoot(w.entries, record);
          var s :| s in w.entries && w.entries[s].root == Some(record);
          assert ValidEntry(w.registryHeap, s, w.entries[s]);
          assert s in next.entries && next.entries[s].root == Some(record);
        }
      }
    }
  }

  /** Removing an entry together with its root. */
  lemma RemoveKeeps(w: World, slot: Slot, heap: HeapState)
    requires Invariant(w) && ValidHeap(heap)
    requires forall r :: r in heap.roots <==> r in w.heap.roots && r.root.id != RootIdOf(slot)
    ensures Invariant(w.(entries := w.entries - {slot}, heap := heap))
  {
    var next := w.(entries := w.entries - {slot}, heap := heap);
    forall record: TargetedRootRecord | IsApiRootId(record.root.id)
      ensures record in heap.roots <==> HoldsRoot(next.entries, record)
    {
      if HoldsRoot(next.entries, record) {
        var s :| s in next.entries && next.entries[s].root == Some(record);
        assert ValidEntry(w.registryHeap, s, w.entries[s]);
        assert s in w.entries && HoldsRoot(w.entries, record);
      }
      if record in heap.roots {
        assert HoldsRoot(w.entries, record);
        var s :| s in w.entries && w.entries[s].root == Some(record);
        assert ValidEntry(w.registryHeap, s, w.entries[s]);
        assert s in next.entries;
      }
    }
  }

  lemma ProtectKeeps(w: World, protected: ProtectedValue, target: Target)
    requires Invariant(w)
    ensures Invariant(ProtectWorld(w, protected, target).0)
    ensures ProtectWorld(w, protected, target).1.Err? ==> ProtectWorld(w, protected, target).0 == w
  {
    var planned := PlanProtect(w.registryHeap, w.entries, protected, target);
    if planned.Ok? {
      var slot := protected.slot.value;
      var root := TargetedRootFor(w.registryHeap, slot, target).value;
      if slot in w.entries {
        var existing := w.entries[slot];
        assert ValidEntry(w.registryHeap, slot, existing);
        if existing.root.Some? { EntryRootInHeap(w, slot); }
        forall r | r in w.heap.roots && r.root.id == RootIdOf(slot) ensures existing.root == Some(r) {
          RootOfSlot(w, slot, r);
        }
        StoreKeeps(w, slot, existing.(count := existing.count + 1), w.heap);
      } else if root.Some? && RegisterRoot(w.heap, root.value, HandleScope).Ok? {
        RegisterKeepsHeap(w.heap, root.value, HandleScope);
        StoreKeeps(w, slot, Entry(protected, 1, target, root), RegisterRoot(w.heap, root.value, HandleScope).value);
      } else if root.None? {
        forall r | r in w.heap.roots ensures r.root.id != RootIdOf(slot) {
          if r.root.id == RootIdOf(slot) { RootOfSlot(w, slot, r); }
        }
        StoreKeeps(w, slot, Entry(protected, 1, target, root), w.heap);
      }
    }
  }

  /** Unprotecting succeeds exactly when the slot is protected. */
  lemma UnprotectKeeps(w: World, slot: Slot)
    requires Invariant(w)
    ensures Invariant(UnprotectWorld(w, slot).0)
    ensures UnprotectWorld(w, slot).1.Ok? <==> slot in w.entries
    ensures slot !in w.entries ==> UnprotectWorld(w, slot).0 == w
  {
    if slot in w.entries {
      var existing := w.entries[slot];
      assert ValidEntry(w.registryHeap, slot, existing);
      forall r | r in w.heap.roots && r.root.id == RootIdOf(slot) ensures existing.root == Some(r) {
        RootOfSlot(w, slot, r);
      }
      if existing.root.Some? { EntryRootInHeap(w, slot); }
      if existing.count > 1 {
        StoreKeeps(w, slot, existing.(count := existing.count - 1), w.heap);
      } else {
        var rest := w.entries - {slot};
        assert ValidEntries(w.registryHeap, rest);
        TargetedRootsValid(w.registryHeap, rest);
        if existing.root.Some? {
          var root := existing.root.value.root;
          assert HasRoot(w.heap.roots, root.id);
          assert UnregisterRoot(w.heap, root, HandleScope).Ok?;
          UnregisterKeepsHeap(w.heap, root, HandleScope);
          RemoveKeeps(w, slot, UnregisterRoot(w.heap, root, HandleScope).value);
        } else {
          RemoveKeeps(w, slot, w.heap);
        }
      }
    }
  }

  /** What a valid world says about the root of a protected slot. */
  lemma SlotRoot(w: World, slot: Slot)
    requires Invariant(w) && slot in w.entries
    ensures ValidEntry(w.registryHeap, slot, w.entries[slot])
    ensures forall r :: r in w.heap.roots && r.root.id == RootIdOf(slot) ==> w.entries[slot].root == Some(r)
    ensures w.entries[slot].root.Some? ==>
      && w.entries[slot].root.value in w.heap.roots
      && w.entries[slot].root.value.root == RootRecord(RootIdOf(slot), Handle, w.heap.id)
      && w.registryHeap == w.heap.id
  {
    if w.entries[slot].root.Some? { EntryRootInHeap(w, slot); }
    forall r | r in w.heap.roots && r.root.id == RootIdOf(slot) ensures w.entries[slot].root == Some(r) {
      RootOfSlot(w, slot, r);
    }
  }

  /** Applying the mutation that moves a slot to its new entry's root, and storing the entry. */
  lemma MutationKeeps(w: World, slot: Slot, entry: Entry, mutation: RootMutation)
    requires Invariant(w) && slot in w.entries && ValidEntry(w.registryHeap, slot, entry)
    requires RetargetMutation(w.entries[slot], entry.target, entry.root) == Some(mutation)
    requires ApplyMutation(w.heap, mutation).Ok?
    ensures Invariant(w.(entries := w.entries[slot := entry], heap := ApplyMutation(w.heap, mutation).value))
  {
    SlotRoot(w, slot);
    match mutation.kind {
      case Register => RegisterKeepsHeap(w.heap, mutation.record, HandleScope);
      case Unregister => UnregisterKeepsHeap(w.heap, mutation.record.root, HandleScope);
      case Retarget => RetargetKeepsHeap(w.heap, mutation.record, HandleScope);
    }
    StoreKeeps(w, slot, entry, ApplyMutation(w.heap, mutation).value);
  }

  lemma PlannedRetargetKeeps(w: World, slot: Slot, entry: Entry, mutation: Option<RootMutation>, heap: HeapState)
    requires Invariant(w) && slot in w.entries && ValidEntry(w.registryHeap, slot, entry)
    requires mutation == RetargetMutation(w.entries[slot], entry.target, entry.root)
    requires if mutation.Some? then ApplyMutation(w.heap, mutation.value) == Ok(heap) else heap == w.heap
    ensures Invariant(w.(entries := w.entries[slot := entry], heap := heap))
  {
    if mutation.Some? {
      MutationKeeps(w, slot, entry, mutation.value);
    } else {
      SlotRoot(w, slot);
      StoreKeeps(w, slot, entry, w.heap);
    }
  }

  lemma RetargetKeeps(w: World, protected: ProtectedValue, target: Target)
    requires Invariant(w)
    ensures Invariant(RetargetWorld(w, protected, target).0)
    ensures RetargetWorld(w, protected, target).1.Err? ==> RetargetWorld(w, protected, target).0 == w
  {
    var next := RetargetWorld(w, protected, target);
    var planned := PlanRetarget(w.registryHeap, w.entries, protected, target);
    if planned.Ok? && next.1.Ok? {
      var slot := protected.slot.value;
      PlannedRetargetKeeps(w, slot, planned.value.0[slot], planned.value.1.mutation, next.0.heap);
    }
  }

  /** Only the entries and roots of a protection change; every step keeps the invariant, and a
      step that fails changes nothing. */
  lemma StepKeeps(w: World, op: Op)
    requires Invariant(w) && Admissible(op)
    ensures Invariant(Step(w, op).0)
    ensures !Step(w, op).1 ==> Step(w, op).0 == w
  {
    match op {
      case Protect(protected, target) => ProtectKeeps(w, protected, target);
      case Unprotect(slot) => UnprotectKeeps(w, slot);
      case Retarget(protected, target) => RetargetKeeps(w, protected, target);
      case Allocate(cell) =>
      case Collect(garbage) => CollectKeeps(w, garbage);
      case RegisterOther(record, authority) =>
        if Step(w, op).1 {
          RegisterKeepsHeap(w.heap, record, authority);
          OtherRootsKeep(w, Step(w, op).0.heap, record.root.id);
        }
      case RetargetOther(record, authority) =>
        if Step(w, op).1 {
          RetargetKeepsHeap(w.heap, record, authority);
          OtherRootsKeep(w, Step(w, op).0.heap, record.root.id);
        }
      case UnregisterOther(root, authority) =>
        if Step(w, op).1 {
          UnregisterKeepsHeap(w.heap, root, authority);
          OtherRootsKeep(w, Step(w, op).0.heap, root.id);
        }
    }
  }

  lemma OtherRootsKeep(w: World, heap: HeapState, id: RootId)
    requires Invariant(w) && ValidHeap(heap) && !IsApiRootId(id)
    requires forall r: TargetedRootRecord :: r.root.id != id ==> (r in heap.roots <==> r in w.heap.roots)
    ensures Invariant(w.(heap := heap))
  {
  }

  lemma CollectKeeps(w: World, garbage: set<CellId>)
    requires Invariant(w)
    ensures Invariant(w.(heap := CollectCells(w.heap, garbage)))
  {
    var heap := CollectCells(w.heap, garbage);
    forall r | r in heap.roots ensures r.target in heap.cells {
      assert r.target in RootTargets(w.heap.roots);
    }
  }

  // ---- Runs ----

  function Run(w: World, ops: seq<Op>): World
    decreases ops
  {
    if ops == [] then w else Run(Step(w, ops[0]).0, ops[1..])
  }

  ghost predicate AdmissibleRun(ops: seq<Op>) {
    forall op :: op in ops ==> Admissible(op)
  }

  /** A fresh registry over a heap that other root users may already have populated. */
  ghost predicate Fresh(w: World) {
    w.entries == map[] && ValidHeap(w.heap) && forall r :: r in w.heap.roots ==> !IsApiRootId(r.root.id)
  }

  lemma {:induction false} RunKeeps(w: World, ops: seq<Op>)
    requires Invariant(w) && AdmissibleRun(ops)
    ensures Invariant(Run(w, ops))
    decreases ops
  {
    if ops != [] {
      StepKeeps(w, ops[0]);
      RunKeeps(Step(w, ops[0]).0, ops[1..]);
    }
  }

  function CountOf(w: World, slot: Slot): nat {
    if slot in w.entries then w.entries[slot].count else 0
  }

  function Delta(w: World, op: Op, slot: Slot): int {
    if !Step(w, op).1 then 0
    else if op.Protect? && op.protected.slot == Some(slot) then 1
    else if op == Unprotect(slot) then -1
    else 0
  }

  /** Successful protections of `slot` minus successful unprotections, over a run. */
  function Net(w: World, ops: seq<Op>, slot: Slot): int
    decreases ops
  {
    if ops == [] then 0 else Delta(w, ops[0], slot) + Net(Step(w, ops[0]).0, ops[1..], slot)
  }

  lemma ProtectCounts(w: World, protected: ProtectedValue, target: Target, slot: Slot)
    requires ProtectWorld(w, protected, target).1.Ok?
    ensures CountOf(ProtectWorld(w, protected, target).0, slot) ==
      CountOf(w, slot) + if protected.slot == Some(slot) then 1 else 0
  {
  }

  lemma UnprotectCounts(w: World, unprotected: Slot, slot: Slot)
    requires UnprotectWorld(w, unprotected).1.Ok?
    ensures CountOf(UnprotectWorld(w, unprotected).0, slot) == CountOf(w, slot) - if unprotected == slot then 1 else 0
  {
  }

  lemma RetargetCounts(w: World, protected: ProtectedValue, target: Target, slot: Slot)
    requires RetargetWorld(w, protected, target).1.Ok?
    ensures CountOf(RetargetWorld(w, protected, target).0, slot) == CountOf(w, slot)
  {
    RetargetEntries(w, protected, target);
  }

  lemma RetargetEntries(w: World, protected: ProtectedValue, target: Target)
    requires RetargetWorld(w, protected, target).1.Ok?
    ensures protected.slot.Some? && protected.slot.value in w.entries
    ensures var slot := protected.slot.value;
            var entry := Entry(protected, w.entries[slot].count, target, RootFor(slot, target));
            RetargetWorld(w, protected, target).0.entries == w.entries[slot := entry]
  {
    PlannedRetarget(w.registryHeap, w.entries, protected, target);
    var planned := PlanRetarget(w.registryHeap, w.entries, protected, target).value;
    Committed(w, planned.0, planned.1);
  }

  lemma PlannedRetarget(heap: HeapId, entries: Entries, protected: ProtectedValue, target: Target)
    requires PlanRetarget(heap, entries, protected, target).Ok?
    ensures protected.slot.Some? && protected.slot.value in entries
    ensures var slot, planned := protected.slot.value, PlanRetarget(heap, entries, protected, target).value;
            && planned.0 == entries[slot := Entry(protected, entries[slot].count, target, RootFor(slot, target))]
            && planned.1 == Plan(Retargeted, slot, protected.value, target, entries[slot].count,
                                 RootChange(entries[slot], slot, target))
  {
  }

  lemma Committed(w: World, planned: Entries, plan: Plan)
    requires Commit(w, planned, plan).1.Ok?
    ensures var (next, r) := Commit(w, planned, plan);
            && r == Ok(plan) && next.entries == planned && next.registryHeap == w.registryHeap
            && SameHeap(w.heap, next.heap) && RootsChanged(w.heap.roots, next.heap.roots, plan.mutation)
  {
    if plan.mutation.Some? {
      match plan.mutation.value.kind {
        case Register => RegisterExact(w.heap, plan.mutation.value.record, HandleScope);
        case Unregister =>
        case Retarget => RetargetExact(w.heap, plan.mutation.value.record, HandleScope);
      }
    }
  }

  lemma StepCounts(w: World, op: Op, slot: Slot)
    requires Invariant(w) && Admissible(op)
    ensures CountOf(Step(w, op).0, slot) == CountOf(w, slot) + Delta(w, op, slot)
  {
    StepKeeps(w, op);
    if Step(w, op).1 {
      match op {
        case Protect(protected, target) => ProtectCounts(w, protected, target, slot);
        case Unprotect(unprotected) => UnprotectCounts(w, unprotected, slot);
        case Retarget(protected, target) => RetargetCounts(w, protected, target, slot);
        case _ =>
      }
    }
  }

  lemma {:induction false} RunCounts(w: World, ops: seq<Op>, slot: Slot)
    requires Invariant(w) && AdmissibleRun(ops)
    ensures CountOf(Run(w, ops), slot) == CountOf(w, slot) + Net(w, ops, slot)
    decreases ops
  {
    if ops != [] {
      StepCounts(w, ops[0], slot);
      StepKeeps(w, ops[0]);
      RunCounts(Step(w, ops[0]).0, ops[1..], slot);
    }
  }

  /** After any run from a fresh registry: a slot has an entry exactly while its protections
      outnumber its unprotections, and the entry counts the difference; an entry has a root
      exactly when its target is a cell, that root is in the heap, and the cell is alive. */
  lemma RunFromFresh(w: World, ops: seq<Op>, slot: Slot)
    requires Fresh(w) && AdmissibleRun(ops)
    ensures var end := Run(w, ops);
      && 0 <= Net(w, ops, slot) <= MAX_COUNT
      && (slot in end.entries <==> Net(w, ops, slot) > 0)
      && (slot in end.entries ==>
        var entry := end.entries[slot];
        && entry.count == Net(w, ops, slot)
        && (entry.root.Some? <==> entry.target.Cell?)
        && (entry.target.Cell? ==>
          && entry.target.cell in end.heap.cells
          && TargetedRootRecord(RootRecord(RootIdOf(slot), Handle, end.heap.id), entry.target.cell) in end.heap.roots))
  {
    assert Invariant(w);
    RunKeeps(w, ops);
    RunCounts(w, ops, slot);
    var end := Run(w, ops);
    if slot in end.entries {
      assert ValidEntry(end.registryHeap, slot, end.entries[slot]);
      if end.entries[slot].root.Some? {
        EntryRootInHeap(end, slot);
      }
    }
  }

  /** The API roots of the heap are the roots of the registry's entries, one per slot. */
  lemma ApiRootsAreEntries(w: World, ops: seq<Op>, r: TargetedRootRecord)
    requires Fresh(w) && AdmissibleRun(ops)
    requires r in Run(w, ops).heap.roots && IsApiRootId(r.root.id)
    ensures var slot: Slot := r.root.id - ROOT_ID_BASE - 1;
      slot in Run(w, ops).entries && Run(w, ops).entries[slot].root == Some(r)
  {
    assert Invariant(w);
    RunKeeps(w, ops);
    RootOfSlot(Run(w, ops), r.root.id - ROOT_ID_BASE - 1, r);
  }

  // ---- When calls succeed ----

  ghost predicate AcceptsTarget(w: World, target: Target) {
    target.Cell? ==> target.heap == w.registryHeap == w.heap.id && target.cell != 0 && target.cell in w.heap.cells
  }

  /** A first protection succeeds exactly for a target the heap can root; a repeated one exactly
      when it repeats owner, value and target and the counter has room. */
  lemma ProtectSucceeds(w: World, protected: ProtectedValue, target: Target)
    requires Invariant(w)
    ensures ProtectWorld(w, protected, target).1.Ok? <==>
      && protected.slot.Some?
      && var slot := protected.slot.value;
        if slot in w.entries then
          var existing := w.entries[slot];
          && existing.protected == protected && existing.target == target
          && existing.count < MAX_COUNT
        else AcceptsTarget(w, target)
  {
    if protected.slot.Some? {
      var slot := protected.slot.value;
      if slot in w.entries {
        assert ValidEntry(w.registryHeap, slot, w.entries[slot]);
      } else if TargetedRootFor(w.registryHeap, slot, target).Ok? {
        var root := TargetedRootFor(w.registryHeap, slot, target).value;
        TargetedRootsWithValid(w.registryHeap, w.entries, slot, root, target);
        forall r | r in w.heap.roots ensures r.root.id != RootIdOf(slot) {
          if r.root.id == RootIdOf(slot) { RootOfSlot(w, slot, r); }
        }
      }
    }
  }

  /** The heap accepts the mutation of a retargeting exactly for a target it can root. */
  lemma MutationAccepted(w: World, slot: Slot, target: Target, root: Option<TargetedRootRecord>, mutation: RootMutation)
    requires Invariant(w) && slot in w.entries && TargetedRootFor(w.registryHeap, slot, target) == Ok(root)
    requires RetargetMutation(w.entries[slot], target, root) == Some(mutation)
    ensures ApplyMutation(w.heap, mutation).Ok? <==> AcceptsTarget(w, target)
  {
    SlotRoot(w, slot);
    assert w.entries[slot].root.Some? <==> HasRoot(w.heap.roots, RootIdOf(slot));
  }

  lemma RetargetPlan(w: World, protected: ProtectedValue, target: Target)
    requires Invariant(w) && protected.slot.Some? && protected.slot.value in w.entries
    ensures var slot := protected.slot.value;
      var planned := PlanRetarget(w.registryHeap, w.entries, protected, target);
      var targeted := TargetedRootFor(w.registryHeap, slot, target);
      && (planned.Ok? <==> w.entries[slot].protected.owner == protected.owner && targeted.Ok?)
      && (planned.Ok? ==> planned.value.1.mutation == RetargetMutation(w.entries[slot], target, targeted.value))
  {
    var slot := protected.slot.value;
    var targeted := TargetedRootFor(w.registryHeap, slot, target);
    if targeted.Ok? {
      TargetedRootsWithValid(w.registryHeap, w.entries, slot, targeted.value, target);
    }
  }

  /** Retargeting succeeds exactly for a protected slot, its own owner, and a target the heap can root. */
  lemma RetargetSucceeds(w: World, protected: ProtectedValue, target: Target)
    requires Invariant(w)
    ensures RetargetWorld(w, protected, target).1.Ok? <==>
      && protected.slot.Some? && protected.slot.value in w.entries
      && w.entries[protected.slot.value].protected.owner == protected.owner
      && AcceptsTarget(w, target)
  {
    if protected.slot.Some? && protected.slot.value in w.entries {
      RetargetPlan(w, protected, target);
      var planned := PlanRetarget(w.registryHeap, w.entries, protected, target);
      if planned.Ok? {
        RetargetCommits(w, protected.slot.value, target, planned.value.0, planned.value.1);
      }
    }
  }

  lemma RetargetCommits(w: World, slot: Slot, target: Target, entries: Entries, plan: Plan)
    requires Invariant(w) && slot in w.entries && TargetedRootFor(w.registryHeap, slot, target).Ok?
    requires plan.mutation ==
      RetargetMutation(w.entries[slot], target, TargetedRootFor(w.registryHeap, slot, target).value)
    ensures Commit(w, entries, plan).1.Ok? <==> AcceptsTarget(w, target)
  {
    SlotRoot(w, slot);
    if plan.mutation.Some? {
      MutationAccepted(w, slot, target, TargetedRootFor(w.registryHeap, slot, target).value, plan.mutation.value);
    }
  }

  // ---- What calls store and report ----

  /** The root of a slot that protects a cell. */
  function RootFor(slot: Slot, target: Target): Option<TargetedRootRecord> {
    match target
    case Cell(heap, cell) => Some(TargetedRootRecord(RootRecord(6_000_001 + slot, Handle, heap), cell))
    case NoTarget => None
  }

  /** The entries differ at the slot at most. */
  ghost predicate OthersKept(before: Entries, after: Entries, slot: Slot) {
    forall s :: s != slot ==> (s in after <==> s in before) && (s in before ==> after[s] == before[s])
  }

  ghost predicate SameHeap(before: HeapState, after: HeapState) {
    after.id == before.id && after.cells == before.cells
  }

  /** A first protection stores its arguments with a count of 1 and registers the root of a cell; a repeated one
      counts up and changes nothing else. The plan reports the entry that is stored. */
  lemma ProtectStores(w: World, protected: ProtectedValue, target: Target)
    requires ProtectWorld(w, protected, target).1.Ok?
    ensures protected.slot.Some?
    ensures var (next, r) := ProtectWorld(w, protected, target);
            var slot := protected.slot.value;
            && next.registryHeap == w.registryHeap && OthersKept(w.entries, next.entries, slot) && slot in next.entries
            && (if slot in w.entries then
                  var existing := w.entries[slot];
                  && next.entries[slot] == Entry(existing.protected, existing.count + 1, existing.target, existing.root)
                  && next.heap == w.heap
                  && r.value == Plan(Protected, slot, protected.value, target, existing.count + 1, None)
                else
                  var root := RootFor(slot, target);
                  && next.entries[slot] == Entry(protected, 1, target, root)
                  && SameHeap(w.heap, next.heap)
                  && next.heap.roots == w.heap.roots + OptionToSeq(root)
                  && r.value == Plan(Protected, slot, protected.value, target, 1,
                                     if root.Some? then Some(RootMutation(Register, root.value)) else None))
  {
    var slot := protected.slot.value;
    if slot !in w.entries && RootFor(slot, target).Some? {
      RegisterExact(w.heap, RootFor(slot, target).value, HandleScope);
    }
  }

  /** Unprotecting counts down and changes nothing else; the last time it removes the entry and its root. */
  lemma UnprotectStores(w: World, slot: Slot)
    requires UnprotectWorld(w, slot).1.Ok?
    ensures slot in w.entries
    ensures var (next, r) := UnprotectWorld(w, slot);
            var existing := w.entries[slot];
            && next.registryHeap == w.registryHeap && OthersKept(w.entries, next.entries, slot)
            && SameHeap(w.heap, next.heap)
            && (if existing.count > 1 then
                  && slot in next.entries
                  && next.entries[slot] == Entry(existing.protected, existing.count - 1, existing.target, existing.root)
                  && next.heap == w.heap
                  && r.value == Plan(Unprotected, slot, existing.protected.value, existing.target, existing.count - 1,
                                     None)
                else
                  && slot !in next.entries && existing.count == 1
                  && (existing.root.None? ==> next.heap == w.heap)
                  && (existing.root.Some? ==>
                        forall x :: x in next.heap.roots <==>
                          x in w.heap.roots && x.root.id != existing.root.value.root.id)
                  && r.value == Plan(Unprotected, slot, existing.protected.value, existing.target, 0,
                                     if existing.root.Some? then Some(RootMutation(Unregister, existing.root.value))
                                     else None))
  {
  }

  /** What a retargeting does to the root of its slot: nothing when it keeps the target, and otherwise what the
      old and the new target call for. */
  function RootChange(existing: Entry, slot: Slot, target: Target): Option<RootMutation> {
    if existing.root.None? then
      if target.NoTarget? then None else Some(RootMutation(Register, RootFor(slot, target).value))
    else if target.NoTarget? then Some(RootMutation(Unregister, existing.root.value))
    else if target == existing.target then None
    else Some(RootMutation(MutationKind.Retarget, RootFor(slot, target).value))
  }

  /** Retargeting stores its arguments and keeps the count, and registers, moves or removes the slot's root. */
  lemma RetargetStores(w: World, protected: ProtectedValue, target: Target)
    requires RetargetWorld(w, protected, target).1.Ok?
    ensures protected.slot.Some? && protected.slot.value in w.entries
    ensures var (next, r) := RetargetWorld(w, protected, target);
            var slot := protected.slot.value;
            var existing := w.entries[slot];
            var change := RootChange(existing, slot, target);
            && next.registryHeap == w.registryHeap && OthersKept(w.entries, next.entries, slot) && slot in next.entries
            && next.entries[slot] == Entry(protected, existing.count, target, RootFor(slot, target))
            && r.value == Plan(Retargeted, slot, protected.value, target, existing.count, change)
            && SameHeap(w.heap, next.heap) && RootsChanged(w.heap.roots, next.heap.roots, change)
  {
    PlannedRetarget(w.registryHeap, w.entries, protected, target);
    var planned := PlanRetarget(w.registryHeap, w.entries, protected, target).value;
    Committed(w, planned.0, planned.1);
  }

  ghost predicate RootsChanged(before: seq<TargetedRootRecord>, after: seq<TargetedRootRecord>,
                               change: Option<RootMutation>)
  {
    match change
    case None => after == before
    case Some(RootMutation(Register, record)) => after == before + [record]
    case Some(RootMutation(Unregister, record)) =>
      forall x :: x in after <==> x in before && x.root.id != record.root.id
    case Some(RootMutation(Retarget, record)) =>
      && |after| == |before|
      && forall i :: 0 <= i < |before| ==>
           after[i] == if before[i].root.id == record.root.id then record else before[i]
  }

  // ---- What refused calls report ----

  /** What is wrong when a call with these arguments is refused. */
  ghost predicate CallFault(w: World, protected: ProtectedValue, target: Target, repeats: bool, e: ProtectionError) {
    match e
    case MissingProtectionSlot => protected.slot.None?
    case SlotHeapMismatch(slot, expected, actual) =>
      protected.slot == Some(slot) && target.Cell? && expected == w.registryHeap && actual == target.heap != expected
    case DefaultTargetCell(slot) => protected.slot == Some(slot) && target.Cell? && target.cell == 0
    case SlotOwnerMismatch(slot, existing, requested) =>
      protected.slot == Some(slot) && slot in w.entries && requested == protected.owner &&
      existing == w.entries[slot].protected.owner != requested
    case SlotValueMismatch(slot, existing, requested) =>
      repeats && protected.slot == Some(slot) && slot in w.entries && requested == protected.value &&
      existing == w.entries[slot].protected.value != requested
    case SlotTargetMismatch(slot, existing, requested) =>
      repeats && protected.slot == Some(slot) && slot in w.entries && requested == target &&
      existing == w.entries[slot].target != requested
    case ProtectionCountOverflow(slot) =>
      repeats && protected.slot == Some(slot) && slot in w.entries && w.entries[slot].count == 0xffff_ffff
    case UnknownProtectionSlot(slot) => !repeats && protected.slot == Some(slot) && slot !in w.entries
    case HeapRejected(heapError) => TargetFault(w, target, heapError)
    case RootSet(_) => false
  }

  /** The heap refuses a root for a target that it cannot root, and for no other reason. */
  ghost predicate TargetFault(w: World, target: Target, e: HeapError) {
    match e
    case HeapMismatch(expected, actual) => expected == w.heap.id && target.Cell? && actual == target.heap != expected
    case UnknownCell(cell) => target.Cell? && cell == target.cell && cell !in w.heap.cells
    case Root(_) => false
  }

  lemma RepeatedRefusal(w: World, protected: ProtectedValue, target: Target)
    requires Invariant(w) && protected.slot.Some? && protected.slot.value in w.entries
    ensures var r := ProtectWorld(w, protected, target).1;
            r.Err? ==> CallFault(w, protected, target, true, r.error)
  {
    assert ValidEntry(w.registryHeap, protected.slot.value, w.entries[protected.slot.value]);
  }

  lemma NewRootRefused(w: World, slot: Slot, target: Target, root: TargetedRootRecord)
    requires Invariant(w) && slot !in w.entries && TargetedRootFor(w.registryHeap, slot, target) == Ok(Some(root))
    ensures var r := RegisterRoot(w.heap, root, HandleScope);
            r.Err? ==> TargetFault(w, target, r.error)
  {
    forall r | r in w.heap.roots ensures r.root.id != RootIdOf(slot) {
      if r.root.id == RootIdOf(slot) { RootOfSlot(w, slot, r); }
    }
  }

  lemma FirstRefusal(w: World, protected: ProtectedValue, target: Target)
    requires Invariant(w) && protected.slot.Some? && protected.slot.value !in w.entries
    ensures var r := ProtectWorld(w, protected, target).1;
            r.Err? ==> CallFault(w, protected, target, true, r.error)
  {
    var slot := protected.slot.value;
    var targeted := TargetedRootFor(w.registryHeap, slot, target);
    if targeted.Ok? {
      TargetedRootsWithValid(w.registryHeap, w.entries, slot, targeted.value, target);
      if targeted.value.Some? {
        NewRootRefused(w, slot, target, targeted.value.value);
      }
    }
  }

  lemma ProtectRefusalHolds(w: World, protected: ProtectedValue, target: Target)
    requires Invariant(w)
    ensures var r := ProtectWorld(w, protected, target).1;
            r.Err? ==> CallFault(w, protected, target, true, r.error)
  {
    if protected.slot.Some? {
      if protected.slot.value in w.entries {
        RepeatedRefusal(w, protected, target);
      } else {
        FirstRefusal(w, protected, target);
      }
    }
  }

  lemma MutationRefused(w: World, slot: Slot, target: Target, root: Option<TargetedRootRecord>, mutation: RootMutation)
    requires Invariant(w) && slot in w.entries && TargetedRootFor(w.registryHeap, slot, target) == Ok(root)
    requires RetargetMutation(w.entries[slot], target, root) == Some(mutation)
    ensures var r := ApplyMutation(w.heap, mutation);
            r.Err? ==> TargetFault(w, target, r.error)
  {
    SlotRoot(w, slot);
    assert w.entries[slot].root.Some? <==> HasRoot(w.heap.roots, RootIdOf(slot));
  }

  lemma RetargetRefusalHolds(w: World, protected: ProtectedValue, target: Target)
    requires Invariant(w)
    ensures var r := RetargetWorld(w, protected, target).1;
            r.Err? ==> CallFault(w, protected, target, false, r.error)
  {
    if protected.slot.Some? && protected.slot.value in w.entries {
      var slot := protected.slot.value;
      var planned := PlanRetarget(w.registryHeap, w.entries, protected, target);
      var targeted := TargetedRootFor(w.registryHeap, slot, target);
      RetargetPlan(w, protected, target);
      if planned.Ok? && planned.value.1.mutation.Some? {
        MutationRefused(w, slot, target, targeted.value, planned.value.1.mutation.value);
      }
    }
  }

  /** A slot that is not protected is the one reason to refuse an unprotection. */
  lemma UnprotectRefusalHolds(w: World, slot: Slot)
    requires Invariant(w)
    ensures var r := UnprotectWorld(w, slot).1;
            r.Err? ==> r.error == UnknownProtectionSlot(slot) && slot !in w.entries
  {
    UnprotectKeeps(w, slot);
    if slot in w.entries {
      assert ValidEntry(w.registryHeap, slot, w.entries[slot]);
    }
  }
}
