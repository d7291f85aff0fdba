/** Scheduling the values of one block, children first, with cycle detection. */
module B3Scheduler {
  import opened Wrappers
  import opened Sequences
  import opened Graphs
  import opened B3Procedure

  /** From a value of the block to those of its children that live in the same block. */
  function ChildGraph(block: Block, values: seq<Value>): (g: Graph) {
    map id | id in Elements(block.values) && FindValue(values, id).Some? ::
      Retain(FindValue(values, id).value.children, block.values)
  }

  /** Scheduled and in-progress values are apart, and children are scheduled before parents. */
  ghost predicate ScheduleState(block: Block, values: seq<Value>, visiting: seq<ValueId>, schedule: seq<ValueId>) {
    && NoDup(schedule) && ChildrenFirst(ChildGraph(block, values), schedule)
    && (forall id :: id in schedule ==> id in block.values && id !in visiting)
  }

  ghost predicate ChildrenFirst(g: Graph, schedule: seq<ValueId>) {
    forall i, v :: 0 <= i < |schedule| && Edge(g, schedule[i], v) ==> v in schedule[..i]
  }

  ghost function Untouched(block: Block, visiting: seq<ValueId>, schedule: seq<ValueId>): set<ValueId> {
    Elements(block.values) - Elements(visiting) - Elements(schedule)
  }

  /** Success leaves `id` scheduled and the chain of in-progress values as it was;
      failure names a value on a cycle. */
  ghost predicate ScheduleOutcome(block: Block, values: seq<Value>, id: ValueId,
                                  visiting: seq<ValueId>, schedule: seq<ValueId>,
                                  visiting': seq<ValueId>, schedule': seq<ValueId>,
                                  r: Result<(), ValidationError>)
  {
    match r
    case Ok(_) =>
      && ScheduleState(block, values, visiting', schedule')
      && visiting' == visiting
      && schedule <= schedule'
      && id in schedule'
      && NewReached(ChildGraph(block, values), id, schedule, schedule')
      && (HasValue(values, id) && id !in schedule ==>
            var children := FindValue(values, id).value.children;
            InListOrder(block, values, children, |children|, schedule, schedule'))
    case Err(e) => e.ValueCycle? && ReachesProperly(ChildGraph(block, values), e.value, e.value)
  }

  /** Only what `id` reaches has been scheduled meanwhile. */
  ghost predicate NewReached(g: Graph, id: ValueId, before: seq<ValueId>, after: seq<ValueId>) {
    forall x :: x in after && x !in before ==> Reaches(g, id, x)
  }

  ghost predicate ReachedFrom(block: Block, values: seq<Value>, list: seq<ValueId>, k: int, x: ValueId) {
    exists h :: 0 <= h < k <= |list| && list[h] in block.values && Reaches(ChildGraph(block, values), list[h], x)
  }

  /** Of the first `k` values of a list that are visited in turn, those in the block are scheduled in that order,
      unless a value was scheduled before or is reached by one that stands before it. */
  ghost predicate InListOrder(block: Block, values: seq<Value>, list: seq<ValueId>, k: nat, before: seq<ValueId>,
                              schedule: seq<ValueId>)
    requires k <= |list|
  {
    forall i, j :: 0 <= i < j < k && list[i] in block.values && list[j] in block.values && list[j] !in before &&
                   !ReachedFrom(block, values, list, j, list[j]) ==>
      Before(schedule, list[i], list[j])
  }

  /** Everything scheduled since `before` is reached by one of the first `k` values of the list. */
  ghost predicate AllReached(block: Block, values: seq<Value>, list: seq<ValueId>, k: nat, before: seq<ValueId>,
                             schedule: seq<ValueId>)
    requires k <= |list|
  {
    forall x :: x in schedule && x !in before ==> ReachedFrom(block, values, list, k, x)
  }

  lemma NextInOrder(block: Block, values: seq<Value>, list: seq<ValueId>, k: nat, before: seq<ValueId>,
                    schedule: seq<ValueId>, after: seq<ValueId>)
    requires k < |list| && list[k] in block.values
    requires InListOrder(block, values, list, k, before, schedule)
    requires AllReached(block, values, list, k, before, schedule)
    requires ChildrenScheduled(block, list[..k], schedule) && schedule <= after && list[k] in after
    requires NewReached(ChildGraph(block, values), list[k], schedule, after)
    ensures InListOrder(block, values, list, k + 1, before, after)
    ensures AllReached(block, values, list, k + 1, before, after)
  {
    forall x | x in after && x !in before ensures ReachedFrom(block, values, list, k + 1, x) {
      if x in schedule {
        var h :| 0 <= h < k && list[h] in block.values && Reaches(ChildGraph(block, values), list[h], x);
      }
    }
    forall i, j | 0 <= i < j < k + 1 && list[i] in block.values && list[j] in block.values && list[j] !in before &&
                  !ReachedFrom(block, values, list, j, list[j])
      ensures Before(after, list[i], list[j])
    {
      if j < k {
        assert Before(schedule, list[i], list[j]);
      } else {
        assert list[i] in list[..k];
        var p :| 0 <= p < |schedule| && schedule[p] == list[i];
        var q :| 0 <= q < |after| && after[q] == list[k];
        assert list[k] !in schedule;
        assert after[p] == schedule[p] && q >= |schedule|;
      }
    }
  }

  lemma SkippedInOrder(block: Block, values: seq<Value>, list: seq<ValueId>, k: nat, before: seq<ValueId>,
                       schedule: seq<ValueId>)
    requires k < |list| && list[k] !in block.values
    requires InListOrder(block, values, list, k, before, schedule)
    requires AllReached(block, values, list, k, before, schedule)
    ensures InListOrder(block, values, list, k + 1, before, schedule)
    ensures AllReached(block, values, list, k + 1, before, schedule)
  {
    forall x | x in schedule && x !in before ensures ReachedFrom(block, values, list, k + 1, x) {
      var h :| 0 <= h < k && list[h] in block.values && Reaches(ChildGraph(block, values), list[h], x);
    }
  }

  /** What the children of `id` reach, `id` reaches. */
  lemma ReachedThrough(block: Block, values: seq<Value>, id: ValueId, before: seq<ValueId>, schedule: seq<ValueId>)
    requires id in block.values && HasValue(values, id)
    requires var children := FindValue(values, id).value.children;
             AllReached(block, values, children, |children|, before, schedule)
    ensures NewReached(ChildGraph(block, values), id, before, schedule + [id])
  {
    var g := ChildGraph(block, values);
    var children := FindValue(values, id).value.children;
    ReachesSelf(g, id);
    forall x | x in schedule && x !in before ensures Reaches(g, id, x) {
      var h :| 0 <= h < |children| && children[h] in block.values && Reaches(g, children[h], x);
      assert Edge(g, id, children[h]);
      ReachesFirst(g, id, children[h], x);
    }
  }

  lemma OrderKept(block: Block, values: seq<Value>, list: seq<ValueId>, before: seq<ValueId>, schedule: seq<ValueId>,
                  id: ValueId)
    requires InListOrder(block, values, list, |list|, before, schedule)
    ensures InListOrder(block, values, list, |list|, before, schedule + [id])
  {
    forall i, j | 0 <= i < j < |list| && Before(schedule, list[i], list[j])
      ensures Before(schedule + [id], list[i], list[j])
    {
      var p, q :| 0 <= p < q < |schedule| && schedule[p] == list[i] && schedule[q] == list[j];
      assert (schedule + [id])[p] == list[i] && (schedule + [id])[q] == list[j];
    }
  }

  ghost predicate ValuesExist(block: Block, values: seq<Value>) {
    forall id :: id in block.values ==> HasValue(values, id)
  }

  ghost predicate ChildrenScheduled(block: Block, children: seq<ValueId>, schedule: seq<ValueId>) {
    forall v :: v in children && v in block.values ==> v in schedule
  }

  method ScheduleValue(id: ValueId, block: Block, values: seq<Value>, visiting: Vec<ValueId>, schedule: Vec<ValueId>)
    returns (r: Result<(), ValidationError>)
    requires visiting != schedule
    requires id in block.values && ValuesExist(block, values)
    requires ScheduleState(block, values, visiting.items, schedule.items)
    requires forall x :: x in visiting.items ==> ReachesProperly(ChildGraph(block, values), x, id)
    modifies visiting, schedule
    ensures ScheduleOutcome(block, values, id, old(visiting.items), old(schedule.items), visiting.items,
        schedule.items, r)
    decreases Untouched(block, visiting.items, schedule.items)
  {
    if id in schedule.items {
      return Ok(());
    }
    if id in visiting.items {
      return Err(ValueCycle(id));
    }
    visiting.Push(id);
    var children := FindValue(values, id).value.children;
    ghost var visiting0, schedule0 := visiting.items, schedule.items;
    for k := 0 to |children|
      invariant ScheduleState(block, values, visiting.items, schedule.items)
      invariant visiting.items == visiting0 && schedule0 <= schedule.items
      invariant ChildrenScheduled(block, children[..k], schedule.items)
      invariant InListOrder(block, values, children, k, schedule0, schedule.items)
      invariant AllReached(block, values, children, k, schedule0, schedule.items)
      invariant id !in old(visiting.items) && id !in old(schedule.items)
    {
      var child := children[k];
      assert children[..k + 1] == children[..k] + [child];
      if child in block.values {
        ghost var schedule1 := schedule.items;
        EnterChild(block, values, id, child, old(visiting.items), schedule0, schedule1);
        var step := ScheduleValue(child, block, values, visiting, schedule);
        if step.Err? {
          return step;
        }
        PrefixElements(schedule1, schedule.items);
        NextInOrder(block, values, children, k, schedule0, schedule1, schedule.items);
      } else {
        SkippedInOrder(block, values, children, k, schedule0, schedule.items);
      }
    }
    assert children[..|children|] == children;
    FinishValue(block, values, id, old(visiting.items), schedule.items);
    ReachedThrough(block, values, id, schedule0, schedule.items);
    OrderKept(block, values, children, schedule0, schedule.items, id);
    visiting.items := Without(visiting.items, id);
    schedule.Push(id);
    return Ok(());
  }

  /** Descending to an in-block child extends the chain of in-progress values. */
  lemma EnterChild(block: Block, values: seq<Value>, id: ValueId, child: ValueId, visiting: seq<ValueId>,
                   before: seq<ValueId>, after: seq<ValueId>)
    requires id in block.values && HasValue(values, id)
    requires child in block.values && child in FindValue(values, id).value.children
    requires forall x :: x in visiting ==> ReachesProperly(ChildGraph(block, values), x, id)
    requires id !in visiting && id !in before && before <= after
    ensures forall x :: x in visiting + [id] ==> ReachesProperly(ChildGraph(block, values), x, child)
    ensures Untouched(block, visiting + [id], after) < Untouched(block, visiting, before)
  {
    var g := ChildGraph(block, values);
    assert Edge(g, id, child);
    forall x | x in visiting + [id] ensures ReachesProperly(g, x, child) {
      if x in visiting {
        var w :| Edge(g, x, w) && Reaches(g, w, id);
        ReachesStep(g, w, id, child);
      } else {
        ReachesSelf(g, child);
      }
    }
    PrefixElements(before, after);
    assert forall x :: x in visiting ==> x in visiting + [id];
    assert id in visiting + [id];
    assert id in Untouched(block, visiting, before) && id !in Untouched(block, visiting + [id], after);
  }

  lemma FinishValue(block: Block, values: seq<Value>, id: ValueId, visiting: seq<ValueId>, schedule: seq<ValueId>)
    requires ScheduleState(block, values, visiting + [id], schedule)
    requires id in block.values && id !in visiting
    requires HasValue(values, id)
    requires ChildrenScheduled(block, FindValue(values, id).value.children, schedule)
    ensures ScheduleState(block, values, visiting, schedule + [id])
    ensures Without(visiting + [id], id) == visiting
  {
    WithoutPushed(visiting, id);
    var g := ChildGraph(block, values);
    var done := schedule + [id];
    assert id in visiting + [id] && forall x :: x in visiting ==> x in visiting + [id];
    forall i, v | 0 <= i < |done| && Edge(g, done[i], v) ensures v in done[..i] {
      if i < |schedule| {
        assert done[..i] == schedule[..i];
        assert Edge(g, schedule[i], v);
      } else {
        assert done[..i] == schedule;
        assert v in FindValue(values, id).value.children;
      }
    }
  }

  /** Every value of the block exactly once, each after its in-block children. */
  ghost predicate IsSchedule(block: Block, values: seq<Value>, schedule: seq<ValueId>) {
    && NoDup(schedule)
    && (forall id :: id in schedule <==> id in block.values)
    && ChildrenFirst(ChildGraph(block, values), schedule)
  }

  /** The first `k` values of the block have been visited. */
  ghost predicate ScheduledSoFar(block: Block, values: seq<Value>, k: nat, schedule: seq<ValueId>)
    requires k <= |block.values|
  {
    && ScheduleState(block, values, [], schedule) && ChildrenScheduled(block, block.values[..k], schedule)
    && InListOrder(block, values, block.values, k, [], schedule)
    && AllReached(block, values, block.values, k, [], schedule)
  }

  lemma OneMoreScheduled(block: Block, k: nat, before: seq<ValueId>, schedule: seq<ValueId>)
    requires k < |block.values| && ChildrenScheduled(block, block.values[..k], before)
    requires before <= schedule && block.values[k] in schedule
    ensures ChildrenScheduled(block, block.values[..k + 1], schedule)
  {
    PrefixElements(before, schedule);
    assert block.values[..k + 1] == block.values[..k] + [block.values[k]];
  }

  lemma ScheduledOneMore(block: Block, values: seq<Value>, k: nat, before: seq<ValueId>, schedule: seq<ValueId>)
    requires k < |block.values| && ScheduledSoFar(block, values, k, before)
    requires ScheduleState(block, values, [], schedule) && before <= schedule && block.values[k] in schedule
    requires NewReached(ChildGraph(block, values), block.values[k], before, schedule)
    ensures ScheduledSoFar(block, values, k + 1, schedule)
  {
    OneMoreScheduled(block, k, before, schedule);
    NextInOrder(block, values, block.values, k, [], before, schedule);
  }

  lemma ScheduledAll(block: Block, values: seq<Value>, schedule: seq<ValueId>)
    requires ScheduledSoFar(block, values, |block.values|, schedule)
    ensures IsSchedule(block, values, schedule)
  {
    assert block.values[..|block.values|] == block.values;
  }

  method ScheduledValuesInBlock(block: Block, values: seq<Value>) returns (r: Result<seq<ValueId>, ValidationError>)
    ensures var valid := ValidateBlock(block, values);
      if valid.Err? then r == Err(valid.error)
      else
        && (r.Ok? <==> Acyclic(ChildGraph(block, values)))
        && (r.Ok? ==> IsSchedule(block, values, r.value))
        && (r.Ok? ==> InListOrder(block, values, block.values, |block.values|, [], r.value))
        && (r.Err? ==> r.error.ValueCycle?
                       && ReachesProperly(ChildGraph(block, values), r.error.value, r.error.value))
  {
    var valid := ValidateBlock(block, values);
    if valid.Err? {
      return Err(valid.error);
    }
    var schedule := new Vec<ValueId>();
    var visiting := new Vec<ValueId>();
    for k := 0 to |block.values|
      invariant visiting.items == [] && ScheduledSoFar(block, values, k, schedule.items)
    {
      ghost var before := schedule.items;
      var step := ScheduleValue(block.values[k], block, values, visiting, schedule);
      if step.Err? {
        return Err(step.error);
      }
      ScheduledOneMore(block, values, k, before, schedule.items);
    }
    ScheduledAll(block, values, schedule.items);
    ScheduledIsAcyclic(block, values, schedule.items);
    r := Ok(schedule.items);
  }

  /** The edges lead from a value of the block, the first with its id, to its children in the block. */
  lemma ChildEdges(block: Block, values: seq<Value>, u: ValueId, v: ValueId)
    ensures Edge(ChildGraph(block, values), u, v) <==>
      u in block.values && v in block.values && exists k :: IsFirst(values, k, u) && v in values[k].children
  {
    FindValueFirst(values, u);
  }

  /** A block whose values are listed once each, children first, is scheduled as it is listed. */
  lemma OrderedBlockKept(block: Block, values: seq<Value>, schedule: seq<ValueId>)
    requires IsSchedule(block, values, schedule)
    requires InListOrder(block, values, block.values, |block.values|, [], schedule)
    requires NoDup(block.values) && ChildrenFirst(ChildGraph(block, values), block.values)
    ensures schedule == block.values
  {
    var g, list := ChildGraph(block, values), block.values;
    forall i, j | 0 <= i < j < |list| ensures Before(schedule, list[i], list[j]) {
      forall h | 0 <= h < j ensures !Reaches(g, list[h], list[j]) {
        if Reaches(g, list[h], list[j]) {
          EarlierIsClosed(g, list, h + 1);
          assert list[h] in list[..h + 1];
          ClosedHoldsReachable(g, Elements(list[..h + 1]), list[h], list[j]);
        }
      }
    }
    SameOrder(list, schedule);
  }

  lemma NothingBeforeHead(b: seq<ValueId>, x: ValueId)
    requires NoDup(b) && b != []
    ensures !Before(b, x, b[0])
  {
  }

  lemma SameHead(a: seq<ValueId>, b: seq<ValueId>)
    requires NoDup(a) && NoDup(b) && (forall x :: x in a <==> x in b) && a != [] && b != []
    requires forall i, j :: 0 <= i < j < |a| ==> Before(b, a[i], a[j])
    ensures a[0] == b[0] && forall x :: x in a[1..] <==> x in b[1..]
  {
    assert b[0] in a && a == [a[0]] + a[1..] && b == [b[0]] + b[1..];
    var k :| 0 <= k < |a| && a[k] == b[0];
    NothingBeforeHead(b, a[0]);
    forall x ensures x in a[1..] <==> x in b[1..] {
      assert x in a <==> x == a[0] || x in a[1..];
      assert x in b <==> x == b[0] || x in b[1..];
    }
  }

  lemma BeforeInRest(b: seq<ValueId>, x: ValueId, y: ValueId)
    requires b != [] && Before(b, x, y) && x != b[0]
    ensures Before(b[1..], x, y)
  {
    var p, q :| 0 <= p < q < |b| && b[p] == x && b[q] == y;
    assert b[1..][p - 1] == x && b[1..][q - 1] == y;
  }

  /** Lists of the same elements, once each, that agree on their order are equal. */
  lemma {:induction false} SameOrder(a: seq<ValueId>, b: seq<ValueId>)
    requires NoDup(a) && NoDup(b) && forall x :: x in a <==> x in b
    requires forall i, j :: 0 <= i < j < |a| ==> Before(b, a[i], a[j])
    ensures a == b
  {
    HasElement(a);
    HasElement(b);
    if a != [] {
      SameHead(a, b);
      forall i, j | 0 <= i < j < |a[1..]| ensures Before(b[1..], a[1..][i], a[1..][j]) {
        assert Before(b, a[i + 1], a[j + 1]);
        BeforeInRest(b, a[i + 1], a[j + 1]);
      }
      SameOrder(a[1..], b[1..]);
      assert a == [a[0]] + a[1..] && b == [b[0]] + b[1..];
    }
  }

  /** A children-first order of all values rules out cycles. */
  lemma ScheduledIsAcyclic(block: Block, values: seq<Value>, schedule: seq<ValueId>)
    requires IsSchedule(block, values, schedule)
    ensures Acyclic(ChildGraph(block, values))
  {
    var g := ChildGraph(block, values);
    forall v ensures !ReachesProperly(g, v, v) {
      if ReachesProperly(g, v, v) {
        var w :| Edge(g, v, w) && Reaches(g, w, v);
        var i :| 0 <= i < |schedule| && schedule[i] == v;
        assert Edge(g, schedule[i], w);
        EarlierIsClosed(g, schedule, i);
        ClosedHoldsReachable(g, Elements(schedule[..i]), w, v);
      }
    }
  }

  lemma EarlierIsClosed(g: Graph, schedule: seq<ValueId>, i: nat)
    requires ChildrenFirst(g, schedule) && i <= |schedule|
    ensures forall x, y :: x in Elements(schedule[..i]) && Edge(g, x, y) ==> y in Elements(schedule[..i])
  {
    forall x, y | x in schedule[..i] && Edge(g, x, y) ensures y in schedule[..i] {
      var j :| 0 <= j < i && schedule[..i][j] == x;
      assert Edge(g, schedule[j], y);
      assert schedule[..j] <= schedule[..i];
      PrefixElements(schedule[..j], schedule[..i]);
    }
  }
}
