/** Reverse post-order of the blocks reachable from the entry, by depth-first search. */
module B3ReversePostOrder {
  import opened Wrappers
  import opened Sequences
  import opened Graphs
  import opened B3Procedure

  /** What the search keeps between calls: only visited blocks are finished, and every edge
      out of a finished block leads to a block that finished earlier or that reaches back. */
  ghost predicate SearchState(blocks: seq<Block>, visited: seq<BlockId>, postorder: seq<BlockId>) {
    var g := SuccessorGraph(blocks);
    && NoDup(visited) && NoDup(postorder)
    && (forall id :: id in postorder ==> id in visited && HasBlock(blocks, id))
    && (forall i, v :: 0 <= i < |postorder| && Edge(g, postorder[i], v) ==>
      v in visited && (v in postorder[..i] || Reaches(g, v, postorder[i])))
  }

  /** Blocks the search has entered but not left. */
  ghost predicate Open(visited: seq<BlockId>, postorder: seq<BlockId>, id: BlockId) {
    id in visited && id !in postorder
  }

  ghost function Unvisited(blocks: seq<Block>, visited: seq<BlockId>): set<BlockId> {
    Elements(BlockIds(blocks)) - Elements(visited)
  }

  /** The step from one search state to a later one in which `id` has been dealt with. */
  ghost predicate Explored(blocks: seq<Block>, id: BlockId,
                           visited: seq<BlockId>, postorder: seq<BlockId>,
                           visited': seq<BlockId>, postorder': seq<BlockId>)
  {
    && SearchState(blocks, visited', postorder')
    && visited <= visited' && postorder <= postorder'
    && (forall x :: Open(visited', postorder', x) <==> Open(visited, postorder, x))
    && (forall x :: x in visited' && x !in visited ==> Reaches(SuccessorGraph(blocks), id, x))
  }

  ghost predicate ReachedFrom(blocks: seq<Block>, list: seq<BlockId>, k: int, x: BlockId) {
    exists h :: 0 <= h < k <= |list| && Reaches(SuccessorGraph(blocks), list[h], x)
  }

  /** Of the first `k` blocks of a list that are visited in turn, the new ones are finished in that order, unless
      one is reached by one that stands before it. */
  ghost predicate InListOrder(blocks: seq<Block>, list: seq<BlockId>, k: nat, before: seq<BlockId>,
                              postorder: seq<BlockId>)
    requires k <= |list|
  {
    forall i, j :: 0 <= i < j < k && list[i] !in before && list[j] !in before &&
                   !ReachedFrom(blocks, list, j, list[j]) ==>
      Before(postorder, list[i], list[j])
  }

  /** Every block visited since `before` is reached by one of the first `k` of the list. */
  ghost predicate AllReached(blocks: seq<Block>, list: seq<BlockId>, k: nat, before: seq<BlockId>,
                             visited: seq<BlockId>)
    requires k <= |list|
  {
    forall x :: x in visited && x !in before ==> ReachedFrom(blocks, list, k, x)
  }

  lemma NextInOrder(blocks: seq<Block>, list: seq<BlockId>, k: nat, visited0: seq<BlockId>, postorder0: seq<BlockId>,
                    visited1: seq<BlockId>, postorder1: seq<BlockId>,
                    visited2: seq<BlockId>, postorder2: seq<BlockId>)
    requires k < |list| && InListOrder(blocks, list, k, visited0, postorder1)
    requires AllReached(blocks, list, k, visited0, visited1)
    requires forall j :: 0 <= j < k ==> list[j] in visited1
    requires forall x :: Open(visited1, postorder1, x) <==> Open(visited0, postorder0, x)
    requires Explored(blocks, list[k], visited1, postorder1, visited2, postorder2)
    requires list[k] !in visited1 ==> |postorder2| > 0 && postorder2[|postorder2| - 1] == list[k]
    requires forall x :: x in postorder1 ==> x in visited1
    ensures InListOrder(blocks, list, k + 1, visited0, postorder2)
    ensures AllReached(blocks, list, k + 1, visited0, visited2)
  {
    forall x | x in visited2 && x !in visited0 ensures ReachedFrom(blocks, list, k + 1, x) {
      if x in visited1 {
        var h :| 0 <= h < k && Reaches(SuccessorGraph(blocks), list[h], x);
      }
    }
    forall i, j | 0 <= i < j < k + 1 && list[i] !in visited0 && list[j] !in visited0 &&
                  !ReachedFrom(blocks, list, j, list[j])
      ensures Before(postorder2, list[i], list[j])
    {
      if j < k {
        StaysBefore(postorder1, postorder2, list[i], list[j]);
      } else {
        assert !Open(visited0, postorder0, list[i]);
        assert list[i] in visited1 && !Open(visited1, postorder1, list[i]);
        assert list[k] !in visited1;
        LastAfter(postorder1, postorder2, list[i]);
      }
    }
  }

  lemma StaysBefore(p: seq<BlockId>, q: seq<BlockId>, x: BlockId, y: BlockId)
    requires Before(p, x, y) && p <= q
    ensures Before(q, x, y)
  {
    var i, j :| 0 <= i < j < |p| && p[i] == x && p[j] == y;
    assert q[i] == x && q[j] == y;
  }

  lemma LastAfter(p: seq<BlockId>, q: seq<BlockId>, x: BlockId)
    requires x in p && p <= q && q != [] && q[|q| - 1] !in p
    ensures Before(q, x, q[|q| - 1])
  {
    var i :| 0 <= i < |p| && p[i] == x;
    assert q[i] == x && i < |q| - 1;
  }

  /** The block and what it newly reaches have been dealt with; a new one is finished last, after its successors in
      their order. */
  ghost predicate Searched(blocks: seq<Block>, id: BlockId, visited: seq<BlockId>, postorder: seq<BlockId>,
                           visited': seq<BlockId>, postorder': seq<BlockId>)
  {
    && Explored(blocks, id, visited, postorder, visited', postorder')
    && id in visited'
    && (id !in visited ==> |postorder'| > 0 && postorder'[|postorder'| - 1] == id)
    && (HasBlock(blocks, id) && id !in visited ==>
          var successors := FindBlock(blocks, id).value.successors;
          InListOrder(blocks, successors, |successors|, visited + [id], postorder'))
  }

  method VisitBlockPostorder(blocks: seq<Block>, id: BlockId, visited: Vec<BlockId>, postorder: Vec<BlockId>)
    returns (r: Result<(), ValidationError>)
    requires visited != postorder
    requires SearchState(blocks, visited.items, postorder.items)
    requires forall x :: Open(visited.items, postorder.items, x) ==> Reaches(SuccessorGraph(blocks), x, id)
    modifies visited, postorder
    ensures r.Ok? ==> Searched(blocks, id, old(visited.items), old(postorder.items), visited.items, postorder.items)
    ensures r.Err? ==>
      && r.error.MissingBlock? && !HasBlock(blocks, r.error.block)
      && Reaches(SuccessorGraph(blocks), id, r.error.block)
    decreases Unvisited(blocks, visited.items)
  {
    ghost var g := SuccessorGraph(blocks);
    if id in visited.items {
      return Ok(());
    }
    visited.Push(id);
    ReachesSelf(g, id);
    SuccessorGraphDomain(blocks, id);
    var found := FindBlock(blocks, id);
    if found.None? {
      return Err(MissingBlock(id));
    }
    var block := found.value;
    ghost var visited0, postorder0 := visited.items, postorder.items;
    for k := 0 to |block.successors|
      invariant ExploredSoFar(blocks, id, block.successors, k, visited0, postorder0, visited.items, postorder.items)
    {
      var successor := block.successors[k];
      ghost var visited1, postorder1 := visited.items, postorder.items;
      OpenBlocksReach(blocks, id, successor, visited0, postorder0, visited1, postorder1);
      UnvisitedShrinks(blocks, id, old(visited.items), visited1);
      var visit := VisitBlockPostorder(blocks, successor, visited, postorder);
      if visit.Err? {
        ReachesFirst(g, id, successor, visit.error.block);
        return visit;
      }
      ExploredOneMore(blocks, id, block.successors, k, visited0, postorder0, visited1, postorder1,
                      visited.items, postorder.items);
    }
    FinishSearch(blocks, id, old(visited.items), old(postorder.items), visited.items, postorder.items);
    postorder.Push(id);
    return Ok(());
  }

  lemma OrderKept(blocks: seq<Block>, list: seq<BlockId>, before: seq<BlockId>, postorder: seq<BlockId>, id: BlockId)
    requires InListOrder(blocks, list, |list|, before, postorder)
    ensures InListOrder(blocks, list, |list|, before, postorder + [id])
  {
    forall i, j | 0 <= i < j < |list| && Before(postorder, list[i], list[j])
      ensures Before(postorder + [id], list[i], list[j])
    {
      StaysBefore(postorder, postorder + [id], list[i], list[j]);
    }
  }

  lemma OpenBlocksReach(blocks: seq<Block>, id: BlockId, successor: BlockId,
                        visited0: seq<BlockId>, postorder0: seq<BlockId>,
                        visited1: seq<BlockId>, postorder1: seq<BlockId>)
    requires Explored(blocks, id, visited0, postorder0, visited1, postorder1)
    requires forall x :: Open(visited0, postorder0, x) ==> Reaches(SuccessorGraph(blocks), x, id)
    requires Edge(SuccessorGraph(blocks), id, successor)
    ensures forall x :: Open(visited1, postorder1, x) ==> Reaches(SuccessorGraph(blocks), x, successor)
  {
    forall x | Open(visited1, postorder1, x) ensures Reaches(SuccessorGraph(blocks), x, successor) {
      ReachesStep(SuccessorGraph(blocks), x, id, successor);
    }
  }

  lemma UnvisitedShrinks(blocks: seq<Block>, id: BlockId, before: seq<BlockId>, after: seq<BlockId>)
    requires HasBlock(blocks, id) && id !in before && before + [id] <= after
    ensures Unvisited(blocks, after) < Unvisited(blocks, before)
  {
    SuccessorGraphDomain(blocks, id);
    PrefixElements(before + [id], after);
    assert id in before + [id];
    assert forall x :: x in before ==> x in before + [id];
    assert id in Unvisited(blocks, before) && id !in Unvisited(blocks, after);
  }

  /** Exploring a successor of `id` extends the exploration of `id`. */
  lemma ExploredThrough(blocks: seq<Block>, id: BlockId, successor: BlockId,
                        visited0: seq<BlockId>, postorder0: seq<BlockId>,
                        visited1: seq<BlockId>, postorder1: seq<BlockId>,
                        visited2: seq<BlockId>, postorder2: seq<BlockId>)
    requires Explored(blocks, id, visited0, postorder0, visited1, postorder1)
    requires Edge(SuccessorGraph(blocks), id, successor)
    requires Explored(blocks, successor, visited1, postorder1, visited2, postorder2)
    ensures Explored(blocks, id, visited0, postorder0, visited2, postorder2)
    ensures forall x :: x in visited1 ==> x in visited2
  {
    PrefixElements(visited1, visited2);
    forall x | x in visited2 && x !in visited0 ensures Reaches(SuccessorGraph(blocks), id, x) {
      if x !in visited1 {
        ReachesFirst(SuccessorGraph(blocks), id, successor, x);
      }
    }
    forall x ensures Open(visited2, postorder2, x) <==> Open(visited0, postorder0, x) {
      assert Open(visited1, postorder1, x) <==> Open(visited0, postorder0, x);
    }
  }

  /** The first `k` successors of `id` have been searched. */
  ghost predicate ExploredSoFar(blocks: seq<Block>, id: BlockId, successors: seq<BlockId>, k: nat,
                                visited0: seq<BlockId>, postorder0: seq<BlockId>,
                                visited: seq<BlockId>, postorder: seq<BlockId>)
    requires k <= |successors|
  {
    && Explored(blocks, id, visited0, postorder0, visited, postorder)
    && (forall j :: 0 <= j < k ==> successors[j] in visited)
    && InListOrder(blocks, successors, k, visited0, postorder)
    && AllReached(blocks, successors, k, visited0, visited)
  }

  lemma ExploredOneMore(blocks: seq<Block>, id: BlockId, successors: seq<BlockId>, k: nat,
                        visited0: seq<BlockId>, postorder0: seq<BlockId>,
                        visited1: seq<BlockId>, postorder1: seq<BlockId>,
                        visited2: seq<BlockId>, postorder2: seq<BlockId>)
    requires k < |successors| && Edge(SuccessorGraph(blocks), id, successors[k])
    requires ExploredSoFar(blocks, id, successors, k, visited0, postorder0, visited1, postorder1)
    requires Searched(blocks, successors[k], visited1, postorder1, visited2, postorder2)
    ensures ExploredSoFar(blocks, id, successors, k + 1, visited0, postorder0, visited2, postorder2)
  {
    ExploredThrough(blocks, id, successors[k], visited0, postorder0, visited1, postorder1, visited2, postorder2);
    NextInOrder(blocks, successors, k, visited0, postorder0, visited1, postorder1, visited2, postorder2);
  }

  /** Leaving `id`: its successors are all visited, and the open ones among them reach it. */
  lemma FinishBlock(blocks: seq<Block>, id: BlockId, visited0: seq<BlockId>, postorder0: seq<BlockId>,
                    visited: seq<BlockId>, postorder: seq<BlockId>)
    requires Explored(blocks, id, visited0 + [id], postorder0, visited, postorder)
    requires id !in visited0 && HasBlock(blocks, id) && forall x :: x in postorder0 ==> x in visited0
    requires forall v :: Edge(SuccessorGraph(blocks), id, v) ==> v in visited
    requires forall x :: Open(visited0 + [id], postorder0, x) ==> Reaches(SuccessorGraph(blocks), x, id)
    ensures Explored(blocks, id, visited0, postorder0, visited, postorder + [id])
    ensures id in visited
  {
    var g := SuccessorGraph(blocks);
    var done := postorder + [id];
    PrefixElements(visited0 + [id], visited);
    assert id in visited0 + [id];
    assert Open(visited0 + [id], postorder0, id);
    assert Open(visited, postorder, id);
    forall i, v | 0 <= i < |done| && Edge(g, done[i], v)
      ensures v in visited && (v in done[..i] || Reaches(g, v, done[i]))
    {
      if i < |postorder| {
        assert done[..i] == postorder[..i];
        assert Edge(g, postorder[i], v);
      } else {
        assert done[..i] == postorder;
        assert v in postorder || Open(visited, postorder, v);
      }
    }
    forall x ensures Open(visited, done, x) <==> Open(visited0, postorder0, x) {
      assert Open(visited, postorder, x) <==> Open(visited0 + [id], postorder0, x);
      assert x in done <==> x in postorder || x == id;
    }
    ReachesSelf(g, id);
  }

  lemma FinishSearch(blocks: seq<Block>, id: BlockId, visited0: seq<BlockId>, postorder0: seq<BlockId>,
                     visited: seq<BlockId>, postorder: seq<BlockId>)
    requires id !in visited0 && HasBlock(blocks, id) && SearchState(blocks, visited0, postorder0)
    requires var successors := FindBlock(blocks, id).value.successors;
             ExploredSoFar(blocks, id, successors, |successors|, visited0 + [id], postorder0, visited, postorder)
    requires forall x :: Open(visited0, postorder0, x) ==> Reaches(SuccessorGraph(blocks), x, id)
    ensures Searched(blocks, id, visited0, postorder0, visited, postorder + [id])
  {
    var successors := FindBlock(blocks, id).value.successors;
    SuccessorGraphDomain(blocks, id);
    ReachesSelf(SuccessorGraph(blocks), id);
    FinishBlock(blocks, id, visited0, postorder0, visited, postorder);
    OrderKept(blocks, successors, visited0 + [id], postorder, id);
  }

  /** A finished edge points backwards in the post-order unless it closes a cycle. */
  lemma FinishedEdge(blocks: seq<Block>, visited: seq<BlockId>, postorder: seq<BlockId>, u: BlockId, v: BlockId)
    requires SearchState(blocks, visited, postorder)
    requires u in postorder && Edge(SuccessorGraph(blocks), u, v) && !Reaches(SuccessorGraph(blocks), v, u)
    ensures Before(Reverse(postorder), u, v)
  {
    var g := SuccessorGraph(blocks);
    var i :| 0 <= i < |postorder| && postorder[i] == u;
    assert Edge(g, postorder[i], v);
    assert v in visited;
    var earlier := postorder[..i];
    var j :| 0 <= j < |earlier| && earlier[j] == v;
    ReverseBefore(postorder, j, i);
  }

  /** `order` lists the blocks reachable from `entry` once each, entry first, and puts the
      source of an edge before its target unless the target reaches back to the source. */
  ghost predicate IsReversePostOrder(blocks: seq<Block>, entry: BlockId, order: seq<BlockId>) {
    var g := SuccessorGraph(blocks);
    && NoDup(order)
    && (forall id :: id in order <==> Reaches(g, entry, id))
    && |order| > 0 && order[0] == entry
    && (forall u, v :: u in order && Edge(g, u, v) && !Reaches(g, v, u) ==> Before(order, u, v))
  }

  ghost predicate MissingReachable(blocks: seq<Block>, entry: BlockId, id: BlockId) {
    Reaches(SuccessorGraph(blocks), entry, id) && !HasBlock(blocks, id)
  }

  /** The entry's successors are searched in the order they are listed, so that a later one stands before an earlier
      one, unless one listed before it reaches it. */
  ghost predicate SuccessorsInOrder(blocks: seq<Block>, entry: BlockId, order: seq<BlockId>) {
    HasBlock(blocks, entry) &&
    var successors := FindBlock(blocks, entry).value.successors;
    forall i, j :: 0 <= i < j < |successors| && successors[i] != entry && successors[j] != entry &&
                   !ReachedFrom(blocks, successors, j, successors[j]) ==>
      Before(order, successors[j], successors[i])
  }

  lemma ReversedSuccessors(blocks: seq<Block>, entry: BlockId, postorder: seq<BlockId>)
    requires HasBlock(blocks, entry)
    requires var successors := FindBlock(blocks, entry).value.successors;
             InListOrder(blocks, successors, |successors|, [] + [entry], postorder)
    ensures SuccessorsInOrder(blocks, entry, Reverse(postorder))
  {
    var successors := FindBlock(blocks, entry).value.successors;
    forall i, j | 0 <= i < j < |successors| && Before(postorder, successors[i], successors[j])
      ensures Before(Reverse(postorder), successors[j], successors[i])
    {
      var p, q :| 0 <= p < q < |postorder| && postorder[p] == successors[i] && postorder[q] == successors[j];
      ReverseBefore(postorder, p, q);
    }
  }

  method ReversePostOrder(blocks: seq<Block>, entry: BlockId) returns (r: Result<seq<BlockId>, ValidationError>)
    ensures r.Ok? ==> IsReversePostOrder(blocks, entry, r.value)
    ensures r.Ok? ==> SuccessorsInOrder(blocks, entry, r.value)
    ensures r.Ok? <==> forall id :: !MissingReachable(blocks, entry, id)
    ensures r.Err? ==> r.error.MissingBlock? && MissingReachable(blocks, entry, r.error.block)
  {
    ReachesSelf(SuccessorGraph(blocks), entry);
    if !HasBlock(blocks, entry) {
      assert MissingReachable(blocks, entry, entry);
      return Err(MissingBlock(entry));
    }
    var visited := new Vec<BlockId>();
    var postorder := new Vec<BlockId>();
    var visit := VisitBlockPostorder(blocks, entry, visited, postorder);
    if visit.Err? {
      assert MissingReachable(blocks, entry, visit.error.block);
      return Err(visit.error);
    }
    SearchComplete(blocks, entry, visited.items, postorder.items);
    ReversedSuccessors(blocks, entry, postorder.items);
    r := Ok(Reverse(postorder.items));
  }

  /** With no block left open, the reversed post-order is a reverse post-order. */
  lemma SearchComplete(blocks: seq<Block>, entry: BlockId, visited: seq<BlockId>, postorder: seq<BlockId>)
    requires Explored(blocks, entry, [], [], visited, postorder)
    requires entry in visited && |postorder| > 0 && postorder[|postorder| - 1] == entry
    ensures IsReversePostOrder(blocks, entry, Reverse(postorder))
    ensures forall id :: !MissingReachable(blocks, entry, id)
  {
    var g := SuccessorGraph(blocks);
    ReverseElements(postorder);
    AllFinished(blocks, entry, visited, postorder);
    forall u, v | u in postorder && Edge(g, u, v) && !Reaches(g, v, u) ensures Before(Reverse(postorder), u, v) {
      FinishedEdge(blocks, visited, postorder, u, v);
    }
    forall id | Reaches(g, entry, id) ensures HasBlock(blocks, id) {
      assert id in postorder;
    }
  }

  lemma AllFinished(blocks: seq<Block>, entry: BlockId, visited: seq<BlockId>, postorder: seq<BlockId>)
    requires Explored(blocks, entry, [], [], visited, postorder)
    requires entry in visited
    ensures forall id :: id in postorder <==> Reaches(SuccessorGraph(blocks), entry, id)
  {
    var g := SuccessorGraph(blocks);
    forall x ensures x in visited <==> x in postorder {
      assert Open(visited, postorder, x) <==> Open([], [], x);
    }
    forall x, y | x in Elements(postorder) && Edge(g, x, y) ensures y in Elements(postorder) {
      var i :| 0 <= i < |postorder| && postorder[i] == x;
    }
    forall id | Reaches(g, entry, id) ensures id in postorder {
      ClosedHoldsReachable(g, Elements(postorder), entry, id);
    }
  }

  /** On an acyclic graph the reverse post-order is a topological order. */
  lemma AcyclicOrderIsTopological(blocks: seq<Block>, entry: BlockId, order: seq<BlockId>, u: BlockId, v: BlockId)
    requires IsReversePostOrder(blocks, entry, order)
    requires Acyclic(SuccessorGraph(blocks))
    requires u in order && Edge(SuccessorGraph(blocks), u, v)
    ensures Before(order, u, v) && !Before(order, v, u)
  {
    var g := SuccessorGraph(blocks);
    assert Reaches(g, v, u) ==> ReachesProperly(g, u, u);
    assert NoDup(order);
  }
}
