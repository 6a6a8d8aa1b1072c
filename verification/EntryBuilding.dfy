/** What holds of an entry graph while conditions are added to it. */
module EntryBuilding {
  import opened IntSets
  import opened SubsetDefinitions
  import opened SegmentGroups
  import opened EntryNodes
  import opened EntryGraphs
  import opened EntrySubsumption

  /** A normalized condition: its groups. */
  type Key = seq<Group>

  type Segments = map<nat, SubsetDefinition>

  /** Segment definitions are not empty, and no two are the same. */
  ghost predicate SegmentsOk(segments: Segments) {
    && (forall s :: s in segments ==> !segments[s].Empty())
    && (forall s, t :: s in segments && t in segments && segments[s] == segments[t] ==> s == t)
  }

  /** The segments that an input intersects. */
  ghost function Active(segments: Segments, input: SubsetDefinition): set<nat> {
    set s | s in segments && segments[s].MetBy(input)
  }

  ghost predicate KeyOk(segments: Segments, k: Key) {
    Canonical(k) && forall i :: 0 <= i < |k| ==> k[i] != {} && k[i] <= segments.Keys
  }

  predicate Unitary(k: Key) {
    |k| == 1 && |k[0]| == 1
  }

  /** The segment of a condition on one segment only. */
  function SegmentOf(k: Key): nat
    requires Unitary(k)
  {
    Min(k[0])
  }

  /** A condition on one segment that is only codepoints, only features or only design space. */
  predicate PureKey(segments: Segments, k: Key) {
    Unitary(k) && SegmentOf(k) in segments && segments[SegmentOf(k)].NonEmptySets() == 1
  }

  /** The fields of an entry graph. */
  datatype Graph = Graph(nodes: seq<EntryNode>, counts: seq<nat>, rank: seq<nat>, byCondition: map<Key, nat>,
                         bySets: map<SubsetDefinition, nat>, roots: set<nat>)

  ghost predicate Solid(node: EntryNode) {
    node.children != {} || !node.sets.Empty()
  }

  ghost predicate NoParents(nodes: seq<EntryNode>, v: nat) {
    forall y :: 0 <= y < |nodes| ==> v !in nodes[y].children
  }

  /** The node of a condition matches exactly when the condition holds for the segments that the input intersects. */
  ghost predicate Means(segments: Segments, nodes: seq<EntryNode>, rank: seq<nat>, id: nat, k: Key)
    requires Acyclic(nodes, rank) && id < |nodes|
  {
    forall input :: Eval(nodes, rank, id, input) <==> Holds(k, Active(segments, input))
  }

  ghost predicate Core(g: Graph, pending: multiset<nat>) {
    && Consistent(g.nodes, g.counts, g.rank, g.roots, pending)
    && (forall x :: x in pending ==> x < |g.nodes|)
    && (forall x :: 0 <= x < |g.nodes| ==> g.counts[x] > 0)
    && (forall x :: 0 <= x < |g.nodes| ==> LeavesHaveSets(g.nodes, x) && |g.nodes[x].children| <= MAX_CHILDREN)
  }

  /** Every condition has its own node; it means the condition, unless the condition is still being added (`open`). */
  ghost predicate ConditionsOk(segments: Segments, g: Graph, open: set<Key>)
    requires Acyclic(g.nodes, g.rank)
  {
    && open <= g.byCondition.Keys
    && (forall k :: k in g.byCondition ==>
          KeyOk(segments, k) && g.byCondition[k] < |g.nodes|
          && g.nodes[g.byCondition[k]].sets == if PureKey(segments, k) then segments[SegmentOf(k)] else NOTHING)
    && (forall k, k' :: k in g.byCondition && k' in g.byCondition && g.byCondition[k] == g.byCondition[k'] ==> k == k')
    && (forall k :: k in g.byCondition && k !in open ==>
          Means(segments, g.nodes, g.rank, g.byCondition[k], k) && (k != [] ==> Solid(g.nodes[g.byCondition[k]])))
    && (forall k :: k in open ==>
          NoParents(g.nodes, g.byCondition[k]) && !PureKey(segments, k))
  }

  /** The leaves that are shared by their sets. */
  ghost predicate SharedLeavesOk(g: Graph) {
    forall d :: d in g.bySets ==>
      && d.NonEmptySets() == 1 && g.bySets[d] < |g.nodes| == |g.rank|
      && g.nodes[g.bySets[d]].sets == d && g.nodes[g.bySets[d]].children == {} && g.rank[g.bySets[d]] == 0
  }

  ghost predicate Building(segments: Segments, g: Graph, open: set<Key>, pending: multiset<nat>) {
    Core(g, pending) && ConditionsOk(segments, g, open) && SharedLeavesOk(g)
  }

  /** The old nodes are as they were, and old conditions have their old nodes. */
  ghost predicate Extends(g: Graph, g': Graph) {
    && |g.nodes| <= |g'.nodes| && |g.rank| == |g.nodes| && |g'.rank| == |g'.nodes|
    && (forall x :: 0 <= x < |g.nodes| ==> SameMeaning(g.nodes[x], g'.nodes[x]) && g'.rank[x] == g.rank[x])
    && (forall k :: k in g.byCondition ==> k in g'.byCondition && g'.byCondition[k] == g.byCondition[k])
    && (forall d :: d in g.bySets ==> d in g'.bySets && g'.bySets[d] == g.bySets[d])
    && g'.roots == g.roots
  }

  lemma ExtendsCompose(g: Graph, g': Graph, g'': Graph)
    requires Extends(g, g') && Extends(g', g'')
    ensures Extends(g, g'')
  {
  }

  lemma MeaningStays(g: Graph, g': Graph, x: nat, input: SubsetDefinition)
    requires Acyclic(g.nodes, g.rank) && Acyclic(g'.nodes, g'.rank) && Extends(g, g') && x < |g.nodes|
    ensures Eval(g.nodes, g.rank, x, input) == Eval(g'.nodes, g'.rank, x, input)
  {
    var L := Upto(|g.nodes|);
    assert forall y, c :: 0 <= y < |g.nodes| && c in g.nodes[y].children ==> c < |g.nodes|;
    EvalFrame(g.nodes, g.rank, g'.nodes, g'.rank, L, -1, x, input);
  }

  /** Old conditions keep their meaning in a graph that extends theirs. */
  lemma ConditionsStay(segments: Segments, g: Graph, g': Graph, open: set<Key>)
    requires Acyclic(g.nodes, g.rank) && Acyclic(g'.nodes, g'.rank) && ConditionsOk(segments, g, open) && Extends(g, g')
    requires g'.byCondition == g.byCondition
    requires forall k :: k in open ==> NoParents(g'.nodes, g.byCondition[k])
    ensures ConditionsOk(segments, g', open)
  {
    forall k | k in g.byCondition && k !in open
      ensures Means(segments, g'.nodes, g'.rank, g.byCondition[k], k) && (k != [] ==> Solid(g'.nodes[g.byCondition[k]]))
    {
      assert Means(segments, g.nodes, g.rank, g.byCondition[k], k);
      forall input ensures Eval(g'.nodes, g'.rank, g.byCondition[k], input) <==> Holds(k, Active(segments, input)) {
        MeaningStays(g, g', g.byCondition[k], input);
      }
    }
  }

  // ---------- a count more ----------

  /** One edge more is promised to a node. */
  lemma Promise(g: Graph, pending: multiset<nat>, id: nat)
    requires Core(g, pending) && id < |g.nodes|
    ensures id < |g.counts| && Core(g.(counts := g.counts[id := g.counts[id] + 1]), pending + multiset{id})
  {
    var counts' := g.counts[id := g.counts[id] + 1];
    forall x: nat | x < |g.nodes|
      ensures counts'[x] == InDegree(g.nodes, counts', x) + (if x in g.roots then 1 else 0) + (pending + multiset{id})[x]
    {
      InDegreeSame(g.nodes, g.counts, g.nodes, counts', x);
    }
  }

  // ---------- a new node ----------

  ghost function WithNode(g: Graph, node: EntryNode): Graph {
    g.(nodes := g.nodes + [node], counts := g.counts + [1], rank := g.rank + [0])
  }

  /** A new node of any rank. */
  lemma AddNode(nodes: seq<EntryNode>, counts: seq<nat>, rank: seq<nat>, roots: set<nat>, pending: multiset<nat>, node: EntryNode, r: nat)
    requires Consistent(nodes, counts, rank, roots, pending) && node.children == {} && |nodes| !in pending
    ensures Consistent(nodes + [node], counts + [1], rank + [r], roots, pending + multiset{|nodes|})
    ensures NoParents(nodes + [node], |nodes|)
  {
    var id := |nodes|;
    var nodes', counts', rank' := nodes + [node], counts + [1], rank + [r];
    assert forall y, c :: 0 <= y < |nodes| && c in nodes[y].children ==> c < |nodes|;
    forall x: nat | x < |nodes'|
      ensures counts'[x] == InDegree(nodes', counts', x) + (if x in roots then 1 else 0) + (pending + multiset{id})[x]
    {
      assert nodes'[..id] == nodes && counts'[..id] == counts;
      if x == id {
        InDegreeZero(nodes, counts, x);
      }
    }
    assert Acyclic(nodes', rank') by {
      forall x, c | 0 <= x < |nodes'| && c in nodes'[x].children ensures c < |nodes'| && rank'[c] < rank'[x] {
        assert c in nodes[x].children;
      }
    }
  }

  lemma NewNodeCore(g: Graph, pending: multiset<nat>, node: EntryNode)
    requires Core(g, pending) && node.children == {}
    ensures Core(WithNode(g, node), pending + multiset{|g.nodes|})
    ensures Extends(g, WithNode(g, node))
    ensures NoParents(WithNode(g, node).nodes, |g.nodes|)
  {
    var g' := WithNode(g, node);
    assert forall y, c :: 0 <= y < |g.nodes| && c in g.nodes[y].children ==> c < |g.nodes|;
    CoreFacts(g, pending);
    hide Consistent, Acyclic;
    AddNode(g.nodes, g.counts, g.rank, g.roots, pending, node, 0);
    forall x | 0 <= x < |g'.nodes| ensures LeavesHaveSets(g'.nodes, x) && |g'.nodes[x].children| <= MAX_CHILDREN {
      if x < |g.nodes| {
        assert LeavesHaveSets(g.nodes, x);
      }
    }
  }

  // ---------- conditions and shared leaves ----------

  lemma UnitaryKey(segments: Segments, k: Key, input: SubsetDefinition)
    requires Unitary(k) && SegmentOf(k) in segments
    ensures k == [{SegmentOf(k)}]
    ensures Holds(k, Active(segments, input)) <==> segments[SegmentOf(k)].MetBy(input)
  {
    var s := SegmentOf(k);
    SingletonIs(k[0], s);
    assert k[0] * Active(segments, input) == if s in Active(segments, input) then {s} else {};
  }

  lemma SingletonIs(g: set<nat>, x: nat)
    requires |g| == 1 && x in g
    ensures g == {x}
  {
    SmallerSubset({x}, g);
  }

  /** A condition on one segment with one kind of set gets the leaf with that set. */
  lemma RegisterPure(segments: Segments, g: Graph, open: set<Key>, pending: multiset<nat>, k: Key, id: nat)
    requires SegmentsOk(segments) && Building(segments, g, open, pending) && KeyOk(segments, k) && PureKey(segments, k)
    requires k !in g.byCondition && id < |g.nodes| && g.nodes[id].children == {} && g.nodes[id].sets == segments[SegmentOf(k)]
    ensures Building(segments, g.(byCondition := g.byCondition[k := id]), open, pending)
  {
    CoreFacts(g, pending);
    PureMeans(segments, g.nodes, g.rank, id, k);
    hide Core, Means, KeyOk, NoParents, Acyclic, PureKey, SegmentsOk;
    RegistersPure(segments, g, open, k, id);
  }

  lemma PureMeans(segments: Segments, nodes: seq<EntryNode>, rank: seq<nat>, id: nat, k: Key)
    requires Acyclic(nodes, rank) && id < |nodes| && nodes[id].children == {}
    requires PureKey(segments, k) && nodes[id].sets == segments[SegmentOf(k)]
    ensures Means(segments, nodes, rank, id, k)
  {
    forall input ensures Eval(nodes, rank, id, input) <==> Holds(k, Active(segments, input)) {
      EvalLeaf(nodes, rank, id, input);
      UnitaryKey(segments, k, input);
    }
  }

  lemma RegistersPure(segments: Segments, g: Graph, open: set<Key>, k: Key, id: nat)
    requires Acyclic(g.nodes, g.rank) && SegmentsOk(segments) && ConditionsOk(segments, g, open)
    requires KeyOk(segments, k) && PureKey(segments, k) && k !in g.byCondition
    requires id < |g.nodes| && g.nodes[id].children == {} && g.nodes[id].sets == segments[SegmentOf(k)]
    requires Means(segments, g.nodes, g.rank, id, k)
    ensures ConditionsOk(segments, g.(byCondition := g.byCondition[k := id]), open)
  {
    assert !segments[SegmentOf(k)].Empty();
    forall k' | k' in g.byCondition ensures g.byCondition[k'] != id {
      PureKeyUnique(segments, k, k');
    }
    hide Means, KeyOk, NoParents, Acyclic, PureKey, SegmentsOk;
  }

  lemma PureKeyUnique(segments: Segments, k: Key, k': Key)
    requires SegmentsOk(segments) && PureKey(segments, k)
    ensures PureKey(segments, k') && segments[SegmentOf(k')] == segments[SegmentOf(k)] ==> k' == k
    ensures segments[SegmentOf(k)] != NOTHING
  {
    UnitaryKey(segments, k, NOTHING);
    if PureKey(segments, k') {
      UnitaryKey(segments, k', NOTHING);
    }
  }

  /** A new empty node for a condition that is to be added. */
  lemma OpenKey(segments: Segments, g: Graph, open: set<Key>, pending: multiset<nat>, k: Key, node: EntryNode)
    requires Building(segments, g, open, pending) && KeyOk(segments, k) && !PureKey(segments, k) && k !in g.byCondition
    requires node.sets == NOTHING && node.children == {}
    ensures var id := |g.nodes|;
            var g' := WithNode(g, node).(byCondition := g.byCondition[k := id]);
            Building(segments, g', open + {k}, pending + multiset{id}) && Extends(g, g')
  {
    hide Core, ConditionsOk, KeyOk, PureKey;
    NewNode(segments, g, open, pending, node);
    FreshNode(segments, g, open, pending);
    OpensKey(segments, WithNode(g, node), open, k);
    CoreSame(WithNode(g, node), WithNode(g, node).(byCondition := g.byCondition[k := |g.nodes|]), pending + multiset{|g.nodes|});
  }

  lemma CoreSame(g: Graph, g': Graph, pending: multiset<nat>)
    requires Core(g, pending) && g'.nodes == g.nodes && g'.counts == g.counts && g'.rank == g.rank && g'.roots == g.roots
    ensures Core(g', pending)
  {
  }

  lemma FreshNode(segments: Segments, g: Graph, open: set<Key>, pending: multiset<nat>)
    requires Building(segments, g, open, pending)
    ensures forall k :: k in g.byCondition ==> g.byCondition[k] < |g.nodes|
  {
    hide Core;
  }

  /** A new node changes nothing for what is there. */
  lemma NewNode(segments: Segments, g: Graph, open: set<Key>, pending: multiset<nat>, node: EntryNode)
    requires Building(segments, g, open, pending) && node.children == {}
    ensures Building(segments, WithNode(g, node), open, pending + multiset{|g.nodes|}) && Extends(g, WithNode(g, node))
    ensures Acyclic(WithNode(g, node).nodes, WithNode(g, node).rank) && NoParents(WithNode(g, node).nodes, |g.nodes|)
  {
    hide Consistent, LeavesHaveSets, Acyclic, Means, KeyOk;
    NewNodeCore(g, pending, node);
    var g1 := WithNode(g, node);
    forall k | k in open ensures NoParents(g1.nodes, g.byCondition[k]) {
      assert NoParents(g.nodes, g.byCondition[k]);
    }
    CoreFacts(g, pending);
    CoreFacts(g1, pending + multiset{|g.nodes|});
    ConditionsStay(segments, g, g1, open);
  }

  lemma OpensKey(segments: Segments, g1: Graph, open: set<Key>, k: Key)
    requires Acyclic(g1.nodes, g1.rank) && ConditionsOk(segments, g1, open) && KeyOk(segments, k) && !PureKey(segments, k)
    requires k !in g1.byCondition && g1.nodes != [] && forall k' :: k' in g1.byCondition ==> g1.byCondition[k'] < |g1.nodes| - 1
    requires var v := g1.nodes[|g1.nodes| - 1]; v.sets == NOTHING && v.children == {}
    requires NoParents(g1.nodes, |g1.nodes| - 1)
    ensures ConditionsOk(segments, g1.(byCondition := g1.byCondition[k := |g1.nodes| - 1]), open + {k})
  {
    hide Means, KeyOk, NoParents, Acyclic;
  }

  lemma CoreFacts(g: Graph, pending: multiset<nat>)
    requires Core(g, pending)
    ensures Acyclic(g.nodes, g.rank) && |g.nodes| == |g.counts| == |g.rank|
    ensures forall x :: x in pending ==> x < |g.nodes|
  {
  }

  /** A new leaf that conditions with the same set can share. */
  lemma NewLeaf(segments: Segments, g: Graph, open: set<Key>, pending: multiset<nat>, d: SubsetDefinition, node: EntryNode)
    requires Building(segments, g, open, pending) && d.NonEmptySets() == 1 && d !in g.bySets
    requires node.sets == d && node.children == {}
    ensures var id := |g.nodes|;
            var g' := WithNode(g, node).(bySets := g.bySets[d := id]);
            Building(segments, g', open, pending + multiset{id}) && Extends(g, g')
  {
    hide Core, ConditionsOk;
    NewNode(segments, g, open, pending, node);
    ConditionsSame(segments, WithNode(g, node), WithNode(g, node).(bySets := g.bySets[d := |g.nodes|]), open);
    CoreSame(WithNode(g, node), WithNode(g, node).(bySets := g.bySets[d := |g.nodes|]), pending + multiset{|g.nodes|});
  }

  lemma ConditionsSame(segments: Segments, g: Graph, g': Graph, open: set<Key>)
    requires Acyclic(g.nodes, g.rank) && ConditionsOk(segments, g, open)
    requires g'.nodes == g.nodes && g'.rank == g.rank && g'.byCondition == g.byCondition
    ensures ConditionsOk(segments, g', open)
  {
  }

  // ---------- changing the node of an open condition ----------

  /** All nodes but v are as they were. */
  ghost predicate ExtendsBut(g: Graph, g': Graph, v: nat) {
    && |g.nodes| <= |g'.nodes| && |g.rank| == |g.nodes| && |g'.rank| == |g'.nodes| && v < |g.nodes|
    && (forall x :: 0 <= x < |g.nodes| && x != v ==> SameMeaning(g.nodes[x], g'.nodes[x]) && g'.rank[x] == g.rank[x])
    && g'.byCondition == g.byCondition && g'.bySets == g.bySets && g'.roots == g.roots
  }

  lemma MeaningStaysBut(g: Graph, g': Graph, v: nat, x: nat, input: SubsetDefinition)
    requires Acyclic(g.nodes, g.rank) && Acyclic(g'.nodes, g'.rank) && ExtendsBut(g, g', v) && x < |g.nodes| && x != v
    requires NoParents(g.nodes, v)
    ensures Eval(g.nodes, g.rank, x, input) == Eval(g'.nodes, g'.rank, x, input)
  {
    var L := Upto(|g.nodes|) - {v};
    assert forall y, c :: 0 <= y < |g.nodes| && c in g.nodes[y].children ==> c < |g.nodes| && c != v;
    EvalFrame(g.nodes, g.rank, g'.nodes, g'.rank, L, -1, x, input);
  }

  lemma OpenIsFree(segments: Segments, g: Graph, open: set<Key>, pending: multiset<nat>, k: Key)
    requires Building(segments, g, open, pending) && k in open
    ensures k in g.byCondition && g.byCondition[k] < |g.nodes| && NoParents(g.nodes, g.byCondition[k])
    ensures Core(g, pending)
    ensures g.nodes[g.byCondition[k]].sets == NOTHING
  {
    hide Core, Means, KeyOk, NoParents;
  }

  /** Changing the node of an open condition leaves all the others as they were. */
  lemma OpenChanged(segments: Segments, g: Graph, g': Graph, open: set<Key>, k: Key, pending: multiset<nat>, pending': multiset<nat>)
    requires Building(segments, g, open, pending) && k in open && Core(g', pending')
    requires ExtendsBut(g, g', g.byCondition[k]) && g'.nodes[g.byCondition[k]].sets == NOTHING
    requires forall k' :: k' in open ==> NoParents(g'.nodes, g.byCondition[k'])
    ensures Building(segments, g', open, pending')
  {
    CoreFacts(g, pending);
    CoreFacts(g', pending');
    hide Core;
    ConditionsStayBut(segments, g, g', open, k);
    forall d | d in g.bySets ensures g.bySets[d] != g.byCondition[k] {
      assert !d.Empty();
    }
  }

  lemma ConditionsStayBut(segments: Segments, g: Graph, g': Graph, open: set<Key>, k: Key)
    requires Acyclic(g.nodes, g.rank) && Acyclic(g'.nodes, g'.rank) && ConditionsOk(segments, g, open) && k in open
    requires ExtendsBut(g, g', g.byCondition[k]) && g'.nodes[g.byCondition[k]].sets == NOTHING
    requires forall k' :: k' in open ==> NoParents(g'.nodes, g.byCondition[k'])
    ensures ConditionsOk(segments, g', open)
  {
    forall k' | k' in g.byCondition && k' !in open
      ensures Means(segments, g'.nodes, g'.rank, g.byCondition[k'], k') && (k' != [] ==> Solid(g'.nodes[g.byCondition[k']]))
    {
      assert Means(segments, g.nodes, g.rank, g.byCondition[k'], k');
      forall input ensures Eval(g'.nodes, g'.rank, g.byCondition[k'], input) <==> Holds(k', Active(segments, input)) {
        MeaningStaysBut(g, g', g.byCondition[k], g.byCondition[k'], input);
      }
    }
    hide Means, KeyOk, Acyclic, NoParents;
  }

  /** A condition is done when its node means it. */
  lemma CloseKey(segments: Segments, g: Graph, open: set<Key>, k: Key, pending: multiset<nat>)
    requires Building(segments, g, open + {k}, pending) && k !in open && Acyclic(g.nodes, g.rank) && k in g.byCondition
    requires g.byCondition[k] < |g.nodes|
    requires Means(segments, g.nodes, g.rank, g.byCondition[k], k) && (k != [] ==> Solid(g.nodes[g.byCondition[k]]))
    ensures Building(segments, g, open, pending)
  {
    hide Core, Means, KeyOk, Acyclic, NoParents;
  }

  /** The ranks of open nodes may be raised. */
  lemma OpenRaised(segments: Segments, g: Graph, open: set<Key>, k: Key, pending: multiset<nat>, r: nat)
    requires Building(segments, g, open, pending) && k in open && g.byCondition[k] < |g.rank| && r >= g.rank[g.byCondition[k]]
    requires g.nodes[g.byCondition[k]].sets == NOTHING
    ensures Building(segments, g.(rank := g.rank[g.byCondition[k] := r]), open, pending)
  {
    var v, g' := g.byCondition[k], g.(rank := g.rank[g.byCondition[k] := r]);
    CoreFacts(g, pending);
    RaiseRank(g.nodes, g.counts, g.rank, g.roots, pending, v, r);
    assert Core(g', pending);
    hide Core, Acyclic, Consistent, Means;
    OpenChanged(segments, g, g', open, k, pending, pending);
  }

  /** A node without parents may be given a higher rank. */
  lemma RaiseRank(nodes: seq<EntryNode>, counts: seq<nat>, rank: seq<nat>, roots: set<nat>, pending: multiset<nat>, v: nat, r: nat)
    requires Consistent(nodes, counts, rank, roots, pending) && v < |nodes| == |rank| && NoParents(nodes, v) && r >= rank[v]
    ensures Consistent(nodes, counts, rank[v := r], roots, pending)
  {
    var rank' := rank[v := r];
    assert Acyclic(nodes, rank') by {
      forall x, c | 0 <= x < |nodes| && c in nodes[x].children ensures c < |nodes| && rank'[c] < rank'[x] {
        assert c != v;
      }
    }
  }

  /** The condition index of a node plays no role for what it means. */
  lemma Reindexed(segments: Segments, g: Graph, open: set<Key>, pending: multiset<nat>, id: nat, conditionIndex: nat)
    requires Building(segments, g, open, pending) && id < |g.nodes|
    ensures var g' := g.(nodes := g.nodes[id := g.nodes[id].(conditionIndex := conditionIndex)]);
            Building(segments, g', open, pending) && Extends(g, g')
  {
    hide Core, NoParents, Building, Acyclic;
    var g' := g.(nodes := g.nodes[id := g.nodes[id].(conditionIndex := conditionIndex)]);
    BuildingParts(segments, g, open, pending);
    ReindexedCore(g, pending, id, conditionIndex);
    forall k | k in open ensures k in g.byCondition && NoParents(g'.nodes, g.byCondition[k]) {
      OpenIsFree(segments, g, open, pending, k);
      SameChildrenFree(g.nodes, g'.nodes, g.byCondition[k]);
    }
    CoreFacts(g', pending);
    hide ConditionsOk;
    ConditionsStay(segments, g, g', open);
    ReindexedLeaves(g, g');
    MakesBuilding(segments, g', open, pending);
  }

  lemma BuildingParts(segments: Segments, g: Graph, open: set<Key>, pending: multiset<nat>)
    requires Building(segments, g, open, pending)
    ensures Core(g, pending) && Acyclic(g.nodes, g.rank) && ConditionsOk(segments, g, open) && SharedLeavesOk(g)
    ensures |g.nodes| == |g.counts| == |g.rank|
  {
    CoreFacts(g, pending);
    hide Core, ConditionsOk;
  }

  lemma MakesBuilding(segments: Segments, g: Graph, open: set<Key>, pending: multiset<nat>)
    requires Core(g, pending) && Acyclic(g.nodes, g.rank) && ConditionsOk(segments, g, open) && SharedLeavesOk(g)
    ensures Building(segments, g, open, pending)
  {
    hide Core, ConditionsOk;
  }

  lemma ReindexedLeaves(g: Graph, g': Graph)
    requires SharedLeavesOk(g) && |g'.nodes| == |g.nodes| && g'.rank == g.rank && g'.bySets == g.bySets
    requires forall x :: 0 <= x < |g.nodes| ==> SameMeaning(g.nodes[x], g'.nodes[x])
    ensures SharedLeavesOk(g')
  {
  }

  lemma ReindexedCore(g: Graph, pending: multiset<nat>, id: nat, conditionIndex: nat)
    requires Core(g, pending) && id < |g.nodes|
    ensures Core(g.(nodes := g.nodes[id := g.nodes[id].(conditionIndex := conditionIndex)]), pending)
  {
    var nodes' := g.nodes[id := g.nodes[id].(conditionIndex := conditionIndex)];
    SameNodesConsistent(g.nodes, nodes', g.counts, g.rank, g.roots, pending);
    hide Consistent;
    forall x | 0 <= x < |nodes'| ensures LeavesHaveSets(nodes', x) && |nodes'[x].children| <= MAX_CHILDREN {
      assert LeavesHaveSets(g.nodes, x);
    }
  }

  lemma SameNodesConsistent(nodes: seq<EntryNode>, nodes': seq<EntryNode>, counts: seq<nat>, rank: seq<nat>, roots: set<nat>, pending: multiset<nat>)
    requires Consistent(nodes, counts, rank, roots, pending) && |nodes'| == |nodes| && forall x :: 0 <= x < |nodes| ==> counts[x] > 0
    requires forall x :: 0 <= x < |nodes| ==> nodes'[x].children == nodes[x].children
    ensures Consistent(nodes', counts, rank, roots, pending)
  {
    forall x: nat | x < |nodes| ensures InDegree(nodes', counts, x) == InDegree(nodes, counts, x) {
      InDegreeSame(nodes', counts, nodes, counts, x);
    }
  }

  /** One edge more is promised; nothing else changes. */
  lemma PromiseBuilding(segments: Segments, g: Graph, open: set<Key>, pending: multiset<nat>, id: nat)
    requires Building(segments, g, open, pending) && id < |g.nodes|
    ensures id < |g.counts|
    ensures var g' := g.(counts := g.counts[id := g.counts[id] + 1]);
            Building(segments, g', open, pending + multiset{id}) && Extends(g, g')
  {
    CoreFacts(g, pending);
    Promise(g, pending, id);
    hide Core;
    ConditionsSame(segments, g, g.(counts := g.counts[id := g.counts[id] + 1]), open);
  }

  /** The mode of an open node may be set. */
  lemma ModeSet(segments: Segments, g: Graph, open: set<Key>, k: Key, v: nat, pending: multiset<nat>, mode: ChildMode)
    requires v < |g.nodes| && k in open && k in g.byCondition && g.byCondition[k] == v && Building(segments, g, open, pending)
    ensures var g' := g.(nodes := g.nodes[v := g.nodes[v].(mode := mode)]);
            Building(segments, g', open, pending) && ExtendsBut(g, g', v)
  {
    hide Core, Building, NoParents;
    var g' := g.(nodes := g.nodes[v := g.nodes[v].(mode := mode)]);
    OpenIsFree(segments, g, open, pending, k);
    CoreFacts(g, pending);
    ModeSetCore(g, pending, v, mode);
    forall k' | k' in open ensures k' in g.byCondition && NoParents(g'.nodes, g.byCondition[k']) {
      OpenIsFree(segments, g, open, pending, k');
      SameChildrenFree(g.nodes, g'.nodes, g.byCondition[k']);
    }
    OpenChanged(segments, g, g', open, k, pending, pending);
  }

  lemma SameChildrenFree(nodes: seq<EntryNode>, nodes': seq<EntryNode>, v: nat)
    requires NoParents(nodes, v) && |nodes| == |nodes'| && forall x :: 0 <= x < |nodes| ==> nodes'[x].children == nodes[x].children
    ensures NoParents(nodes', v)
  {
  }

  lemma ModeSetCore(g: Graph, pending: multiset<nat>, v: nat, mode: ChildMode)
    requires Core(g, pending) && v < |g.nodes|
    ensures Core(g.(nodes := g.nodes[v := g.nodes[v].(mode := mode)]), pending)
  {
    var nodes' := g.nodes[v := g.nodes[v].(mode := mode)];
    SameNodesConsistent(g.nodes, nodes', g.counts, g.rank, g.roots, pending);
    hide Consistent;
    forall x | 0 <= x < |nodes'| ensures LeavesHaveSets(nodes', x) && |nodes'[x].children| <= MAX_CHILDREN {
      assert LeavesHaveSets(g.nodes, x);
    }
  }

  /** A change beyond the nodes of g0 keeps extending g0. */
  lemma ExtendsPast(g0: Graph, g: Graph, g': Graph, v: nat)
    requires Extends(g0, g) && ExtendsBut(g, g', v) && v >= |g0.nodes|
    ensures Extends(g0, g')
  {
  }

  lemma ExtendsRaised(g0: Graph, g: Graph, v: nat, r: nat)
    requires Extends(g0, g) && |g0.nodes| <= v < |g.rank|
    ensures Extends(g0, g.(rank := g.rank[v := r]))
  {
  }
}
