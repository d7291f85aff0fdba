/** Dominator sets of the blocks, by iteration to the greatest fixpoint. */
module B3Dominance {
  import opened Wrappers
  import opened Sequences
  import opened Graphs
  import opened B3Procedure

  datatype DominanceSet = DominanceSet(block: BlockId, dominators: seq<BlockId>)

  // ---- Dominance by paths ----

  /** From a block to its predecessors: a walk in this graph is a control-flow path read backwards. */
  function PredecessorGraph(blocks: seq<Block>): (g: Graph) {
    map id | id in Elements(BlockIds(blocks)) && FindBlock(blocks, id).Some? ::
      FindBlock(blocks, id).value.predecessors
  }

  /** Paths start at the entry, or at any other block that nothing precedes. */
  ghost predicate IsRoot(blocks: seq<Block>, entry: BlockId, id: BlockId) {
    id == entry || (exists b :: b in blocks && b.id == id && b.predecessors == [])
  }

  ghost predicate Dominates(blocks: seq<Block>, entry: BlockId, d: BlockId, id: BlockId) {
    && HasBlock(blocks, d)
    && forall root, path :: IsRoot(blocks, entry, root) && WalkBetween(PredecessorGraph(blocks), id, root, path)
         ==> d in path
  }

  /** The edges lead from a block, the first with its id, to its predecessors. */
  lemma PredecessorEdges(blocks: seq<Block>, u: BlockId, v: BlockId)
    ensures Edge(PredecessorGraph(blocks), u, v) <==>
      exists k :: 0 <= k < |blocks| && blocks[k].id == u && (forall j :: 0 <= j < k ==> blocks[j].id != u) &&
                  v in blocks[k].predecessors
  {
    SuccessorGraphDomain(blocks, u);
    FindBlockFirst(blocks, u);
  }

  lemma PredecessorGraphAt(blocks: seq<Block>, i: nat)
    requires DistinctBlocks(blocks) && i < |blocks|
    ensures var g := PredecessorGraph(blocks); blocks[i].id in g && g[blocks[i].id] == blocks[i].predecessors
  {
    assert blocks[i] in blocks;
    assert HasBlock(blocks, blocks[i].id);
    assert BlockIds(blocks)[i] in Elements(BlockIds(blocks));
  }

  // ---- One step of the iteration ----

  function FindSet(doms: seq<DominanceSet>, id: BlockId): (r: Option<nat>)
    ensures r.Some? ==> r.value < |doms| && doms[r.value].block == id
    ensures r.None? <==> forall i :: 0 <= i < |doms| ==> doms[i].block != id
  {
    if doms == [] then None
    else if doms[0].block == id then Some(0)
    else
      var rest := FindSet(doms[1..], id);
      assert forall i :: 1 <= i < |doms| ==> doms[i] == doms[1..][i - 1];
      if rest.Some? then Some(rest.value + 1) else None
  }

  function DominatorsOf(doms: seq<DominanceSet>, id: BlockId): seq<BlockId> {
    var found := FindSet(doms, id);
    if found.Some? then doms[found.value].dominators else []
  }

  /** Keep the candidates that dominate every predecessor. */
  function Meet(candidates: seq<BlockId>, predecessors: seq<BlockId>, doms: seq<DominanceSet>): seq<BlockId>
    decreases predecessors
  {
    if predecessors == [] then candidates
    else Meet(Retain(candidates, DominatorsOf(doms, predecessors[0])), predecessors[1..], doms)
  }

  function WithSelf(candidates: seq<BlockId>, id: BlockId): seq<BlockId> {
    if id in candidates then candidates else candidates + [id]
  }

  function NextDominators(blocks: seq<Block>, doms: seq<DominanceSet>, block: Block): seq<BlockId> {
    var candidates := if block.predecessors == [] then [] else BlockIds(blocks);
    Sort(WithSelf(Meet(candidates, block.predecessors, doms), block.id))
  }

  /** The sets after visiting one block: the first set that carries its id is replaced. */
  function Visit(blocks: seq<Block>, doms: seq<DominanceSet>, block: Block): seq<DominanceSet> {
    var found := FindSet(doms, block.id);
    if found.Some? then doms[found.value := DominanceSet(block.id, NextDominators(blocks, doms, block))] else doms
  }

  ghost predicate InNext(blocks: seq<Block>, doms: seq<DominanceSet>, block: Block, d: BlockId) {
    || d == block.id
    || (&& block.predecessors != [] && HasBlock(blocks, d)
        && forall p :: p in block.predecessors ==> d in DominatorsOf(doms, p))
  }

  lemma {:induction false} MeetElements(candidates: seq<BlockId>, predecessors: seq<BlockId>,
                                        doms: seq<DominanceSet>, d: BlockId)
    ensures d in Meet(candidates, predecessors, doms) <==>
      d in candidates && forall p :: p in predecessors ==> d in DominatorsOf(doms, p)
    decreases predecessors
  {
    if predecessors != [] {
      var kept := Retain(candidates, DominatorsOf(doms, predecessors[0]));
      MeetElements(kept, predecessors[1..], doms, d);
      assert predecessors == [predecessors[0]] + predecessors[1..];
    }
  }

  lemma {:induction false} MeetNoDup(candidates: seq<BlockId>, predecessors: seq<BlockId>, doms: seq<DominanceSet>)
    requires NoDup(candidates)
    ensures NoDup(Meet(candidates, predecessors, doms))
    decreases predecessors
  {
    if predecessors != [] {
      MeetNoDup(Retain(candidates, DominatorsOf(doms, predecessors[0])), predecessors[1..], doms);
    }
  }

  lemma NextElements(blocks: seq<Block>, doms: seq<DominanceSet>, block: Block)
    requires DistinctBlocks(blocks)
    ensures var next := NextDominators(blocks, doms, block);
      NoDup(next) && Ascending(next) && forall d :: d in next <==> InNext(blocks, doms, block, d)
  {
    var candidates := if block.predecessors == [] then [] else BlockIds(blocks);
    var met := Meet(candidates, block.predecessors, doms);
    MeetNoDup(candidates, block.predecessors, doms);
    SortElements(WithSelf(met, block.id));
    forall d ensures d in NextDominators(blocks, doms, block) <==> InNext(blocks, doms, block, d) {
      MeetElements(candidates, block.predecessors, doms, d);
      IdsAreBlocks(blocks, d);
    }
  }

  lemma IdsAreBlocks(blocks: seq<Block>, id: BlockId)
    ensures id in BlockIds(blocks) <==> HasBlock(blocks, id)
  {
    var ids := BlockIds(blocks);
    if HasBlock(blocks, id) {
      var b :| b in blocks && b.id == id;
      var i :| 0 <= i < |blocks| && blocks[i] == b;
      assert ids[i] == id;
    }
    if id in ids {
      var i :| 0 <= i < |ids| && ids[i] == id;
      assert blocks[i] in blocks;
    }
  }

  // ---- Termination: the total weight of the sets ----

  ghost function Weight(dominators: seq<BlockId>): nat {
    |dominators| + if Ascending(dominators) then 0 else 1
  }

  ghost function Measure(doms: seq<DominanceSet>): nat {
    if doms == [] then 0 else Weight(doms[0].dominators) + Measure(doms[1..])
  }

  lemma {:induction false} MeasureUpdate(doms: seq<DominanceSet>, i: nat, x: DominanceSet)
    requires i < |doms|
    ensures Measure(doms[i := x]) + Weight(doms[i].dominators) == Measure(doms) + Weight(x.dominators)
  {
    var updated := doms[i := x];
    if i == 0 {
      assert updated[1..] == doms[1..];
    } else {
      MeasureUpdate(doms[1..], i - 1, x);
      assert updated[1..] == doms[1..][i - 1 := x];
    }
  }

  /** Replacing a list by a different sorted list of some of its elements weighs less. */
  lemma WeightFalls(previous: seq<BlockId>, next: seq<BlockId>)
    requires NoDup(previous) && NoDup(next) && Ascending(next) && next != previous
    requires forall d :: d in next ==> d in previous
    ensures Weight(next) < Weight(previous)
  {
    NoDupSize(previous);
    NoDupSize(next);
    assert Elements(next) <= Elements(previous);
    SubsetSize(Elements(next), Elements(previous));
    if |next| == |previous| && Ascending(previous) {
      assert forall d :: d in previous ==> d in Elements(previous);
      AscendingUnique(next, previous);
    }
  }

  lemma SubsetSize(a: set<BlockId>, b: set<BlockId>)
    requires a <= b
    ensures |a| <= |b|
    ensures |a| == |b| ==> a == b
  {
    assert b == a + (b - a);
  }

  // ---- The invariant of the iteration ----

  ghost predicate Shape(blocks: seq<Block>, doms: seq<DominanceSet>) {
    && |doms| == |blocks|
    && (forall i :: 0 <= i < |blocks| ==> doms[i].block == blocks[i].id)
    && (forall i :: 0 <= i < |blocks| ==> NoDup(doms[i].dominators))
  }

  /** Visiting a block can only shrink its set. */
  ghost predicate Descending(blocks: seq<Block>, entry: BlockId, doms: seq<DominanceSet>)
    requires Shape(blocks, doms)
  {
    forall i, d :: 0 <= i < |blocks| && blocks[i].id != entry && InNext(blocks, doms, blocks[i], d)
      ==> d in doms[i].dominators
  }

  /** No dominator has been lost. */
  ghost predicate Sound(blocks: seq<Block>, entry: BlockId, doms: seq<DominanceSet>)
    requires Shape(blocks, doms)
  {
    forall i, d :: 0 <= i < |blocks| && Dominates(blocks, entry, d, blocks[i].id) ==> d in doms[i].dominators
  }

  ghost predicate EntryAlone(blocks: seq<Block>, entry: BlockId, doms: seq<DominanceSet>)
    requires Shape(blocks, doms)
  {
    forall i :: 0 <= i < |blocks| && blocks[i].id == entry ==> doms[i].dominators == [entry]
  }

  ghost predicate Approximates(blocks: seq<Block>, entry: BlockId, doms: seq<DominanceSet>) {
    && Shape(blocks, doms)
    && Descending(blocks, entry, doms)
    && Sound(blocks, entry, doms)
    && EntryAlone(blocks, entry, doms)
  }

  /** The set of block `i` is what visiting the block would store. */
  ghost predicate Settled(blocks: seq<Block>, doms: seq<DominanceSet>, i: nat)
    requires Shape(blocks, doms) && i < |blocks|
  {
    doms[i].dominators == NextDominators(blocks, doms, blocks[i])
  }

  lemma SetAt(blocks: seq<Block>, doms: seq<DominanceSet>, i: nat)
    requires DistinctBlocks(blocks) && Shape(blocks, doms) && i < |blocks|
    ensures FindSet(doms, blocks[i].id) == Some(i)
    ensures DominatorsOf(doms, blocks[i].id) == doms[i].dominators
  {
    assert doms[i].block == blocks[i].id;
    var found := FindSet(doms, blocks[i].id).value;
    assert doms[found].block == blocks[found].id;
  }

  /** A smaller set at one block makes every next set smaller. */
  lemma NextMonotone(blocks: seq<Block>, doms: seq<DominanceSet>, smaller: seq<DominanceSet>, block: Block, d: BlockId)
    requires DistinctBlocks(blocks) && Shape(blocks, doms) && Shape(blocks, smaller)
    requires forall i, x :: 0 <= i < |blocks| && x in smaller[i].dominators ==> x in doms[i].dominators
    requires InNext(blocks, smaller, block, d)
    ensures InNext(blocks, doms, block, d)
  {
    if d != block.id {
      forall p | p in block.predecessors ensures d in DominatorsOf(doms, p) {
        assert d in DominatorsOf(smaller, p);
        var i := FindSet(smaller, p).value;
        SetAt(blocks, smaller, i);
        SetAt(blocks, doms, i);
      }
    }
  }

  /** A dominator of a block other than the entry is the block itself or dominates every predecessor. */
  lemma DominatesNext(blocks: seq<Block>, entry: BlockId, doms: seq<DominanceSet>, j: nat, d: BlockId)
    requires DistinctBlocks(blocks) && Approximates(blocks, entry, doms)
    requires j < |blocks| && forall p :: p in blocks[j].predecessors ==> HasBlock(blocks, p)
    requires Dominates(blocks, entry, d, blocks[j].id)
    ensures InNext(blocks, doms, blocks[j], d)
  {
    var g, b := PredecessorGraph(blocks), blocks[j].id;
    PredecessorGraphAt(blocks, j);
    if d != b {
      if blocks[j].predecessors == [] {
        assert blocks[j] in blocks;
        assert IsRoot(blocks, entry, b) && WalkBetween(g, b, b, [b]);
      }
      forall p | p in blocks[j].predecessors ensures d in DominatorsOf(doms, p) {
        DominatesBackwards(blocks, entry, d, b, p);
        var i := IndexOfBlock(blocks, p);
        SetAt(blocks, doms, i);
      }
    }
  }

  lemma IndexOfBlock(blocks: seq<Block>, id: BlockId) returns (i: nat)
    requires HasBlock(blocks, id)
    ensures i < |blocks| && blocks[i].id == id
  {
    var b :| b in blocks && b.id == id;
    i :| 0 <= i < |blocks| && blocks[i] == b;
  }

  lemma DominatesBackwards(blocks: seq<Block>, entry: BlockId, d: BlockId, b: BlockId, p: BlockId)
    requires Dominates(blocks, entry, d, b) && d != b
    requires Edge(PredecessorGraph(blocks), b, p)
    ensures Dominates(blocks, entry, d, p)
  {
    var g := PredecessorGraph(blocks);
    forall root, path | IsRoot(blocks, entry, root) && WalkBetween(g, p, root, path) ensures d in path {
      var longer := [b] + path;
      forall i | 0 <= i < |longer| - 1 ensures Edge(g, longer[i], longer[i + 1]) {
        if i > 0 { assert Edge(g, path[i - 1], path[i]); }
      }
      assert WalkBetween(g, b, root, longer);
    }
  }

  /** The set of block `j` is replaced by the next one. */
  ghost predicate Visited(blocks: seq<Block>, doms: seq<DominanceSet>, j: nat, next: seq<BlockId>,
                          visited: seq<DominanceSet>)
    requires |doms| == |blocks| && j < |blocks|
  {
    && visited == doms[j := DominanceSet(blocks[j].id, next)] && NoDup(next)
    && forall d :: d in next <==> InNext(blocks, doms, blocks[j], d)
  }

  lemma VisitedSets(blocks: seq<Block>, doms: seq<DominanceSet>, j: nat)
    requires DistinctBlocks(blocks) && Shape(blocks, doms) && j < |blocks|
    ensures FindSet(doms, blocks[j].id) == Some(j)
    ensures Visited(blocks, doms, j, NextDominators(blocks, doms, blocks[j]), Visit(blocks, doms, blocks[j]))
  {
    SetAt(blocks, doms, j);
    NextElements(blocks, doms, blocks[j]);
  }

  lemma VisitShrinks(blocks: seq<Block>, entry: BlockId, doms: seq<DominanceSet>, j: nat, next: seq<BlockId>,
                     visited: seq<DominanceSet>)
    requires DistinctBlocks(blocks) && Approximates(blocks, entry, doms) && j < |blocks| && blocks[j].id != entry
    requires Visited(blocks, doms, j, next, visited)
    ensures Shape(blocks, visited) && EntryAlone(blocks, entry, visited)
    ensures forall i, d :: 0 <= i < |blocks| && d in visited[i].dominators ==> d in doms[i].dominators
  {
    forall i, d | 0 <= i < |blocks| && d in visited[i].dominators ensures d in doms[i].dominators {
      if i == j { assert InNext(blocks, doms, blocks[j], d); }
    }
  }

  lemma VisitDescends(blocks: seq<Block>, entry: BlockId, doms: seq<DominanceSet>, j: nat, next: seq<BlockId>,
                      visited: seq<DominanceSet>)
    requires DistinctBlocks(blocks) && Approximates(blocks, entry, doms) && j < |blocks| && blocks[j].id != entry
    requires Visited(blocks, doms, j, next, visited)
    ensures Shape(blocks, visited) && Descending(blocks, entry, visited)
  {
    VisitShrinks(blocks, entry, doms, j, next, visited);
    forall i, d | 0 <= i < |blocks| && blocks[i].id != entry && InNext(blocks, visited, blocks[i], d)
      ensures d in visited[i].dominators
    {
      NextMonotone(blocks, doms, visited, blocks[i], d);
    }
  }

  lemma VisitSound(blocks: seq<Block>, entry: BlockId, doms: seq<DominanceSet>, j: nat, next: seq<BlockId>,
                   visited: seq<DominanceSet>)
    requires DistinctBlocks(blocks) && Approximates(blocks, entry, doms) && j < |blocks| && blocks[j].id != entry
    requires Visited(blocks, doms, j, next, visited)
    requires forall p :: p in blocks[j].predecessors ==> HasBlock(blocks, p)
    ensures Shape(blocks, visited) && Sound(blocks, entry, visited)
  {
    VisitShrinks(blocks, entry, doms, j, next, visited);
    forall i, d | 0 <= i < |blocks| && Dominates(blocks, entry, d, blocks[i].id) ensures d in visited[i].dominators {
      if i == j { DominatesNext(blocks, entry, doms, j, d); }
    }
  }

  /** Visiting a block keeps the invariant, and weighs less when it changes anything. */
  lemma VisitKeeps(blocks: seq<Block>, entry: BlockId, doms: seq<DominanceSet>, j: nat)
    requires DistinctBlocks(blocks) && Approximates(blocks, entry, doms)
    requires j < |blocks| && blocks[j].id != entry
    requires forall p :: p in blocks[j].predecessors ==> HasBlock(blocks, p)
    ensures Approximates(blocks, entry, Visit(blocks, doms, blocks[j]))
    ensures FindSet(doms, blocks[j].id) == Some(j)
    ensures !Settled(blocks, doms, j) ==> Measure(Visit(blocks, doms, blocks[j])) < Measure(doms)
  {
    var next, visited := NextDominators(blocks, doms, blocks[j]), Visit(blocks, doms, blocks[j]);
    VisitedSets(blocks, doms, j);
    VisitShrinks(blocks, entry, doms, j, next, visited);
    VisitDescends(blocks, entry, doms, j, next, visited);
    VisitSound(blocks, entry, doms, j, next, visited);
    if !Settled(blocks, doms, j) {
      WeightFalls(doms[j].dominators, next);
      MeasureUpdate(doms, j, visited[j]);
    }
  }

  // ---- Exactness of a settled state ----

  ghost predicate AllSettled(blocks: seq<Block>, entry: BlockId, doms: seq<DominanceSet>)
    requires Shape(blocks, doms)
  {
    forall i :: 0 <= i < |blocks| && blocks[i].id != entry ==> Settled(blocks, doms, i)
  }

  ghost predicate PredecessorsExist(blocks: seq<Block>, entry: BlockId) {
    forall b, p :: b in blocks && b.id != entry && p in b.predecessors ==> HasBlock(blocks, p)
  }

  /** In a settled state a member of a block's set stands on every path to the block. */
  lemma {:induction false} SettledOnPath(blocks: seq<Block>, entry: BlockId, doms: seq<DominanceSet>,
                                         i: nat, d: BlockId, root: BlockId, path: seq<BlockId>)
    requires DistinctBlocks(blocks) && PredecessorsExist(blocks, entry)
    requires Approximates(blocks, entry, doms) && AllSettled(blocks, entry, doms)
    requires i < |blocks| && d in doms[i].dominators
    requires IsRoot(blocks, entry, root) && WalkBetween(PredecessorGraph(blocks), blocks[i].id, root, path)
    ensures d in path
    decreases |path|
  {
    if blocks[i].id != entry && d != blocks[i].id {
      NextElements(blocks, doms, blocks[i]);
      assert InNext(blocks, doms, blocks[i], d);
      PredecessorGraphAt(blocks, i);
      if |path| == 1 {
        RootHasNoPredecessors(blocks, entry, i);
      } else {
        var p := path[1];
        assert Edge(PredecessorGraph(blocks), path[0], path[1]);
        assert blocks[i] in blocks && HasBlock(blocks, p);
        var k := IndexOfBlock(blocks, p);
        SetAt(blocks, doms, k);
        assert WalkBetween(PredecessorGraph(blocks), p, root, path[1..]) by {
          forall m | 0 <= m < |path| - 2
            ensures Edge(PredecessorGraph(blocks), path[1..][m], path[1..][m + 1])
          {
            assert Edge(PredecessorGraph(blocks), path[m + 1], path[m + 2]);
          }
        }
        SettledOnPath(blocks, entry, doms, k, d, root, path[1..]);
        assert forall x :: x in path[1..] ==> x in path;
      }
    }
  }

  lemma RootHasNoPredecessors(blocks: seq<Block>, entry: BlockId, i: nat)
    requires DistinctBlocks(blocks) && i < |blocks|
    requires blocks[i].id != entry && IsRoot(blocks, entry, blocks[i].id)
    ensures blocks[i].predecessors == []
  {
    var b :| b in blocks && b.id == blocks[i].id && b.predecessors == [];
    var k :| 0 <= k < |blocks| && blocks[k] == b;
  }

  ghost predicate IsDominance(blocks: seq<Block>, entry: BlockId, doms: seq<DominanceSet>) {
    && Shape(blocks, doms)
    && (forall i :: 0 <= i < |blocks| ==> Ascending(doms[i].dominators))
    && (forall i, d :: 0 <= i < |blocks| ==>
      (d in doms[i].dominators <==> Dominates(blocks, entry, d, blocks[i].id)))
  }

  /** The fixpoint the iteration stops at is dominance itself. */
  lemma SettledIsDominance(blocks: seq<Block>, entry: BlockId, doms: seq<DominanceSet>)
    requires DistinctBlocks(blocks) && HasBlock(blocks, entry) && PredecessorsExist(blocks, entry)
    requires Approximates(blocks, entry, doms) && AllSettled(blocks, entry, doms)
    ensures IsDominance(blocks, entry, doms)
  {
    forall i, d | 0 <= i < |blocks| && d in doms[i].dominators ensures Dominates(blocks, entry, d, blocks[i].id) {
      SettledInBlocks(blocks, entry, doms, i, d);
      forall root, path |
        IsRoot(blocks, entry, root) && WalkBetween(PredecessorGraph(blocks), blocks[i].id, root, path)
        ensures d in path
      {
        SettledOnPath(blocks, entry, doms, i, d, root, path);
      }
    }
    forall i | 0 <= i < |blocks| ensures Ascending(doms[i].dominators) {
      NextElements(blocks, doms, blocks[i]);
    }
  }

  lemma SettledInBlocks(blocks: seq<Block>, entry: BlockId, doms: seq<DominanceSet>, i: nat, d: BlockId)
    requires DistinctBlocks(blocks) && HasBlock(blocks, entry)
    requires Approximates(blocks, entry, doms) && AllSettled(blocks, entry, doms)
    requires i < |blocks| && d in doms[i].dominators
    ensures HasBlock(blocks, d)
  {
    if blocks[i].id != entry {
      NextElements(blocks, doms, blocks[i]);
      assert blocks[i] in blocks;
    }
  }

  /** Where every block but the entry has a predecessor, this is textbook dominance: on every
      path from the entry. */
  lemma DominanceFromEntry(blocks: seq<Block>, entry: BlockId, d: BlockId, id: BlockId)
    requires forall b :: b in blocks && b.id != entry ==> b.predecessors != []
    ensures Dominates(blocks, entry, d, id) <==>
      HasBlock(blocks, d) && forall path :: WalkBetween(PredecessorGraph(blocks), id, entry, path) ==> d in path
  {
    assert forall root :: IsRoot(blocks, entry, root) <==> root == entry;
  }

  // ---- The algorithm ----

  /** The first predecessor without a descriptor, in the order the first pass looks at them. */
  function MissingPredecessor(blocks: seq<Block>, entry: BlockId, from: nat): (r: Option<BlockId>)
    requires from <= |blocks|
    ensures r.None? <==>
      (forall i, p :: from <= i < |blocks| && blocks[i].id != entry && p in blocks[i].predecessors ==>
        HasBlock(blocks, p))
    decreases |blocks| - from
  {
    if from == |blocks| then None
    else
      var missing := if blocks[from].id == entry then None else FirstMissingBlock(blocks[from].predecessors, blocks);
      if missing.Some? then missing else MissingPredecessor(blocks, entry, from + 1)
  }

  lemma {:induction false} MissingPredecessorFirst(blocks: seq<Block>, entry: BlockId, from: nat)
    requires from <= |blocks|
    ensures var missing := MissingPredecessor(blocks, entry, from);
            missing.Some? ==> exists i, k :: FirstMissingPredecessor(blocks, entry, from, i, k, missing.value)
    decreases |blocks| - from
  {
    var missing := MissingPredecessor(blocks, entry, from);
    if missing.Some? {
      var ids := blocks[from].predecessors;
      if blocks[from].id != entry && FirstMissingBlock(ids, blocks).Some? {
        var k := FirstMissingIndex(ids, blocks);
        assert FirstMissingPredecessor(blocks, entry, from, from, k, missing.value);
      } else {
        MissingPredecessorFirst(blocks, entry, from + 1);
        var i, k :| FirstMissingPredecessor(blocks, entry, from + 1, i, k, missing.value);
        assert FirstMissingPredecessor(blocks, entry, from, i, k, missing.value);
      }
    }
  }

  /** Predecessor `k` of block `i` has no descriptor, and those looked at before it do. */
  ghost predicate FirstMissingPredecessor(blocks: seq<Block>, entry: BlockId, from: nat, i: int, k: int, p: BlockId) {
    && from <= i < |blocks| && blocks[i].id != entry
    && 0 <= k < |blocks[i].predecessors| && blocks[i].predecessors[k] == p && !HasBlock(blocks, p)
    && (forall j :: 0 <= j < k ==> HasBlock(blocks, blocks[i].predecessors[j]))
    && (forall j, q :: from <= j < i && blocks[j].id != entry && q in blocks[j].predecessors ==> HasBlock(blocks, q))
  }

  lemma {:induction false} FirstMissingIndex(ids: seq<BlockId>, blocks: seq<Block>) returns (k: nat)
    requires FirstMissingBlock(ids, blocks).Some?
    ensures k < |ids| && FirstMissingBlock(ids, blocks) == Some(ids[k]) && !HasBlock(blocks, ids[k])
    ensures forall j :: 0 <= j < k ==> HasBlock(blocks, ids[j])
  {
    if !HasBlock(blocks, ids[0]) {
      k := 0;
    } else {
      var l := FirstMissingIndex(ids[1..], blocks);
      k := l + 1;
      assert forall j :: 0 < j < k ==> ids[j] == ids[1..][j - 1];
    }
  }

  lemma FirstMissingAt(ids: seq<BlockId>, blocks: seq<Block>, k: nat)
    requires k < |ids| && !HasBlock(blocks, ids[k])
    requires forall j :: 0 <= j < k ==> HasBlock(blocks, ids[j])
    ensures FirstMissingBlock(ids, blocks) == Some(ids[k])
  {
    if k > 0 {
      FirstMissingAt(ids[1..], blocks, k - 1);
    }
  }

  function InitialSets(blocks: seq<Block>, entry: BlockId): (doms: seq<DominanceSet>) {
    seq(|blocks|, i requires 0 <= i < |blocks| =>
      DominanceSet(blocks[i].id, if blocks[i].id == entry then [entry] else BlockIds(blocks)))
  }

  lemma InitialApproximates(blocks: seq<Block>, entry: BlockId)
    requires DistinctBlocks(blocks)
    ensures Approximates(blocks, entry, InitialSets(blocks, entry))
  {
    var doms := InitialSets(blocks, entry);
    forall i, d | 0 <= i < |blocks| && blocks[i].id != entry && InNext(blocks, doms, blocks[i], d)
      ensures d in doms[i].dominators
    {
      assert blocks[i] in blocks;
      IdsAreBlocks(blocks, d);
    }
    forall i, d | 0 <= i < |blocks| && Dominates(blocks, entry, d, blocks[i].id) ensures d in doms[i].dominators {
      IdsAreBlocks(blocks, d);
      if blocks[i].id == entry {
        assert WalkBetween(PredecessorGraph(blocks), entry, entry, [entry]);
        assert d in [entry];
      }
    }
  }

  /** Recompute the set of one block, or report its first predecessor without a descriptor. */
  method ComputeNext(blocks: seq<Block>, doms: seq<DominanceSet>, block: Block)
    returns (r: Result<seq<BlockId>, ValidationError>)
    requires forall p :: HasBlock(blocks, p) <==> FindSet(doms, p).Some?
    ensures var missing := FirstMissingBlock(block.predecessors, blocks);
      r == if missing.Some? then Err(MissingBlock(missing.value)) else Ok(NextDominators(blocks, doms, block))
  {
    var next := BlockIds(blocks);
    if block.predecessors == [] {
      next := [];
    }
    ghost var candidates := next;
    for k := 0 to |block.predecessors|
      invariant forall j :: 0 <= j < k ==> HasBlock(blocks, block.predecessors[j])
      invariant Meet(next, block.predecessors[k..], doms) == Meet(candidates, block.predecessors, doms)
    {
      var predecessor := block.predecessors[k];
      var found := FindSet(doms, predecessor);
      if found.None? {
        FirstMissingAt(block.predecessors, blocks, k);
        return Err(MissingBlock(predecessor));
      }
      assert block.predecessors[k..][0] == predecessor && block.predecessors[k..][1..] == block.predecessors[k + 1..];
      next := Retain(next, doms[found.value].dominators);
    }
    if block.id !in next {
      next := next + [block.id];
    }
    r := Ok(Sort(next));
  }

  /** A pass has visited the first `i` blocks. */
  ghost predicate Passed(blocks: seq<Block>, entry: BlockId, start: seq<DominanceSet>, doms: seq<DominanceSet>,
                         changed: bool, i: nat)
    requires i <= |blocks|
  {
    && Approximates(blocks, entry, doms) && MissingPredecessor(blocks, entry, i) == MissingPredecessor(blocks, entry, 0)
    && if changed then Measure(doms) < Measure(start)
       else doms == start && forall k :: 0 <= k < i && blocks[k].id != entry ==> Settled(blocks, doms, k)
  }

  lemma PassVisits(blocks: seq<Block>, entry: BlockId, start: seq<DominanceSet>, doms: seq<DominanceSet>,
                   changed: bool, i: nat)
    requires DistinctBlocks(blocks) && i < |blocks| && blocks[i].id != entry
    requires Passed(blocks, entry, start, doms, changed, i) && FirstMissingBlock(blocks[i].predecessors, blocks).None?
    ensures var next := NextDominators(blocks, doms, blocks[i]);
            && FindSet(doms, blocks[i].id) == Some(i)
            && (next == doms[i].dominators ==> Passed(blocks, entry, start, doms, changed, i + 1))
            && (next != doms[i].dominators ==>
                  Passed(blocks, entry, start, doms[i := DominanceSet(blocks[i].id, next)], true, i + 1))
  {
    VisitKeeps(blocks, entry, doms, i);
  }

  lemma PassSkips(blocks: seq<Block>, entry: BlockId, start: seq<DominanceSet>, doms: seq<DominanceSet>,
                  changed: bool, i: nat)
    requires i < |blocks| && blocks[i].id == entry && Passed(blocks, entry, start, doms, changed, i)
    ensures Passed(blocks, entry, start, doms, changed, i + 1)
  {
  }

  lemma {:induction false} PassFails(blocks: seq<Block>, entry: BlockId, start: seq<DominanceSet>,
                                     doms: seq<DominanceSet>, changed: bool, i: nat)
    requires i < |blocks| && blocks[i].id != entry && Passed(blocks, entry, start, doms, changed, i)
    requires FirstMissingBlock(blocks[i].predecessors, blocks).Some?
    ensures !PredecessorsExist(blocks, entry)
    ensures exists j, k ::
      FirstMissingPredecessor(blocks, entry, 0, j, k, FirstMissingBlock(blocks[i].predecessors, blocks).value)
  {
    MissingPredecessorFirst(blocks, entry, 0);
    assert blocks[i] in blocks;
  }

  method DominanceSets(blocks: seq<Block>, entry: BlockId) returns (r: Result<seq<DominanceSet>, ValidationError>)
    requires DistinctBlocks(blocks)
    ensures
      if !HasBlock(blocks, entry) then r == Err(MissingBlock(entry))
      else if PredecessorsExist(blocks, entry) then r.Ok? && IsDominance(blocks, entry, r.value)
      else
        && r.Err? && r.error.MissingBlock?
        && exists i, k :: FirstMissingPredecessor(blocks, entry, 0, i, k, r.error.block)
  {
    if !HasBlock(blocks, entry) {
      return Err(MissingBlock(entry));
    }
    var doms := InitialSets(blocks, entry);
    InitialApproximates(blocks, entry);
    var changed := true;
    while changed
      invariant Approximates(blocks, entry, doms)
      invariant !changed ==> AllSettled(blocks, entry, doms) && MissingPredecessor(blocks, entry, 0).None?
      decreases Measure(doms), changed
    {
      changed := false;
      ghost var start := doms;
      for i := 0 to |blocks|
        invariant Passed(blocks, entry, start, doms, changed, i)
      {
        var block := blocks[i];
        if block.id == entry {
          PassSkips(blocks, entry, start, doms, changed, i);
          continue;
        }
        SetsAreBlocks(blocks, doms);
        var next := ComputeNext(blocks, doms, block);
        if next.Err? {
          PassFails(blocks, entry, start, doms, changed, i);
          return Err(next.error);
        }
        PassVisits(blocks, entry, start, doms, changed, i);
        var current := FindSet(doms, block.id).value;
        if doms[current].dominators != next.value {
          doms := doms[current := DominanceSet(block.id, next.value)];
          changed := true;
        }
      }
    }
    SettledIsDominance(blocks, entry, doms);
    r := Ok(doms);
  }

  lemma SetsAreBlocks(blocks: seq<Block>, doms: seq<DominanceSet>)
    requires Shape(blocks, doms)
    ensures forall p :: HasBlock(blocks, p) <==> FindSet(doms, p).Some?
  {
    forall p ensures HasBlock(blocks, p) <==> FindSet(doms, p).Some? {
      if HasBlock(blocks, p) {
        var i := IndexOfBlock(blocks, p);
        assert doms[i].block == p;
      }
      if FindSet(doms, p).Some? {
        assert blocks[FindSet(doms, p).value] in blocks;
      }
    }
  }

  // ---- Why distinct ids are needed ----

  lemma SharedIdMeet(doms: seq<DominanceSet>, e: BlockId, a: BlockId)
    requires e < a && DominatorsOf(doms, e) == [e]
    ensures Meet([e, a, a], [e], doms) == [e]
  {
    assert [e, a, a][1..] == [a, a] && [a, a][1..] == [a] && [a][1..] == [] && [e][1..] == [];
    assert Retain([a], [e]) == [];
    assert Retain([a, a], [e]) == [];
    assert Retain([e, a, a], [e]) == [e];
  }

  lemma SortPair(e: BlockId, a: BlockId)
    requires e < a
    ensures Sort([a]) == [a] && Sort([e, a]) == [e, a]
  {
    assert [a][1..] == [] && Insert(a, []) == [a];
    assert [e, a][1..] == [a] && Insert(e, [a]) == [e, a];
  }

  ghost predicate SharedIdState(doms: seq<DominanceSet>, e: BlockId, a: BlockId) {
    && |doms| == 3
    && doms[0] == DominanceSet(e, [e])
    && doms[1].block == a && doms[1].dominators != [e, a]
    && doms[2] == DominanceSet(a, [e, a, a])
  }

  lemma SharedIdFind(doms: seq<DominanceSet>, e: BlockId, a: BlockId)
    requires e < a && |doms| == 3 && doms[0] == DominanceSet(e, [e]) && doms[1].block == a
    ensures FindSet(doms, a) == Some(1) && DominatorsOf(doms, e) == [e]
  {
    assert doms[1..][0] == doms[1];
  }

  lemma SharedIdNext(doms: seq<DominanceSet>, blocks: seq<Block>, e: BlockId, a: BlockId)
    requires e < a && BlockIds(blocks) == [e, a, a] && DominatorsOf(doms, e) == [e]
    ensures NextDominators(blocks, doms, Block(a, [], [e], [])) == [e, a]
    ensures NextDominators(blocks, doms, Block(a, [], [], [])) == [a]
  {
    SharedIdMeet(doms, e, a);
    SortPair(e, a);
    assert WithSelf([e], a) == [e] + [a] == [e, a];
    assert WithSelf([], a) == [a];
    assert Meet([], [], doms) == [];
  }

  lemma SharedIdVisits(doms: seq<DominanceSet>, blocks: seq<Block>, e: BlockId, a: BlockId)
    requires e < a && BlockIds(blocks) == [e, a, a]
    requires |doms| == 3 && doms[0] == DominanceSet(e, [e]) && doms[1].block == a
    ensures Visit(blocks, doms, Block(a, [], [e], [])) == doms[1 := DominanceSet(a, [e, a])]
    ensures Visit(blocks, doms, Block(a, [], [], [])) == doms[1 := DominanceSet(a, [a])]
  {
    SharedIdFind(doms, e, a);
    SharedIdNext(doms, blocks, e, a);
  }

  /** Two blocks that share an id overwrite each other's set: from the initial sets on, the two
      visits of every pass both report a change and end in a state of the same form, so the
      iteration never stops. */
  lemma SharedIdNeverSettles(doms: seq<DominanceSet>, blocks: seq<Block>, e: BlockId, a: BlockId)
    requires e < a && blocks == [Block(e, [], [], []), Block(a, [], [e], []), Block(a, [], [], [])]
    requires SharedIdState(doms, e, a)
    ensures SharedIdState(InitialSets(blocks, e), e, a)
    ensures var once := Visit(blocks, doms, blocks[1]);
      once != doms && Visit(blocks, once, blocks[2]) != once && SharedIdState(Visit(blocks, once, blocks[2]), e, a)
  {
    assert BlockIds(blocks) == [e, a, a];
    SharedIdVisits(doms, blocks, e, a);
    var once := doms[1 := DominanceSet(a, [e, a])];
    SharedIdVisits(once, blocks, e, a);
    assert once[1].dominators != doms[1].dominators;
    var twice := once[1 := DominanceSet(a, [a])];
    assert twice[1].dominators != once[1].dominators by { assert |[a]| != |[e, a]|; }
  }
}
