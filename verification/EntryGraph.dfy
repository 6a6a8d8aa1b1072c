/** The entry graph: conditions compiled to a shared graph of patch map entries, and optimised in place. */
module EntryGraph {
  import opened IntSets
  import opened SubsetDefinitions
  import opened EntryNodes
  import opened EntryGraphs
  import opened EntrySubsumption
  import opened EntryRewrites
  import opened EntrySort
  import opened EntryBuilding
  import opened EntryLinking
  import opened EntryGrowth
  import opened EntryGraphSteps
  import opened EntryCompilation
  import opened EntryEmission
  import opened SegmentGroups
  import opened ActivationConditions
  import opened Wrappers

  class EntryGraph {
    const cost: CostModel
    var nodes: seq<EntryNode>
    var incomingEdgeCount: seq<nat>
    var patchMappings: map<Key, seq<nat>>
    var patchEncodings: map<Key, PatchEncoding>
    var conditionToNodeId: map<Key, nat>
    var setsToNodeId: map<SubsetDefinition, nat>
    ghost var rank: seq<nat>

    /** The nodes of the top level conditions. */
    ghost function Roots(): set<nat>
      reads this`patchMappings, this`conditionToNodeId
    {
      RootsOf(patchMappings, conditionToNodeId)
    }

    /** Every top level condition has a node. */
    ghost predicate Registered()
      reads this`patchMappings, this`conditionToNodeId
    {
      patchMappings.Keys <= conditionToNodeId.Keys
    }

    /** Different top level conditions have different nodes. */
    ghost predicate DistinctRoots()
      reads this`patchMappings, this`conditionToNodeId
    {
      forall k, k' ::
        (k in patchMappings && k' in patchMappings && k in conditionToNodeId && k' in conditionToNodeId
         && conditionToNodeId[k] == conditionToNodeId[k']) ==> k == k'
    }

    // ---------- dropping edges ----------

    /** Drops one edge to a node; a node that nothing leads to any more is cleared after its own edges are dropped. */
    method DecrementIncomingEdges(id: nat)
      requires |nodes| == |incomingEdgeCount| && InRange(nodes, [id])
      modifies this`nodes, this`incomingEdgeCount
      ensures InRange(old(nodes), [id])
      ensures incomingEdgeCount == Drop(old(nodes), old(incomingEdgeCount), [id])
      ensures nodes == Cleared(old(nodes), old(incomingEdgeCount), incomingEdgeCount)
      decreases Sum(incomingEdgeCount)
    {
      hide ToVector, Drop, Sum, Cleared;
      ghost var n0, c0 := nodes, incomingEdgeCount;
      DropOne(n0, c0, id);
      LessSum(c0, id);
      if incomingEdgeCount[id] == 0 {
        NothingCleared(n0, c0, c0);
        return;
      }
      incomingEdgeCount := incomingEdgeCount[id := incomingEdgeCount[id] - 1];
      if incomingEdgeCount[id] == 0 {
        ghost var less := incomingEdgeCount;
        var children := ToVector(nodes[id].children);
        StartRelease(n0, less, children);
        hide InRange, Less;
        for k := 0 to |children|
          invariant Released(n0, less, children, k)
        {
          ReleaseNext(n0, less, children, k);
          DecrementIncomingEdges(children[k]);
          ReleaseDone(n0, less, children, k + 1);
        }
        ReleaseDone(n0, less, children, |children|);
        ClearedLast(n0, c0, less, id, incomingEdgeCount);
        nodes := nodes[id := EMPTY_NODE];
      } else {
        NothingCleared(n0, c0, incomingEdgeCount);
      }
    }

    /** The edges to the first k children have been dropped. */
    ghost predicate Released(n0: seq<EntryNode>, less: seq<nat>, children: seq<nat>, k: nat)
      reads this
    {
      && |n0| == |less| && k <= |children| && InRange(n0, children) && InRange(n0, children[..k])
      && incomingEdgeCount == Drop(n0, less, children[..k])
      && nodes == Cleared(n0, less, incomingEdgeCount)
    }

    lemma StartRelease(n0: seq<EntryNode>, less: seq<nat>, children: seq<nat>)
      requires nodes == n0 && incomingEdgeCount == less && |n0| == |less| && InRange(n0, children)
      ensures Released(n0, less, children, 0)
    {
      NothingCleared(n0, less, less);
    }

    lemma ReleaseNext(n0: seq<EntryNode>, less: seq<nat>, children: seq<nat>, k: nat)
      requires Released(n0, less, children, k) && k < |children|
      ensures InRange(nodes, [children[k]]) && InRange(n0, children[..k + 1]) && |nodes| == |incomingEdgeCount|
      ensures Drop(nodes, incomingEdgeCount, [children[k]]) == Drop(n0, less, children[..k + 1])
      ensures Cleared(nodes, incomingEdgeCount, Drop(n0, less, children[..k + 1]))
              == Cleared(n0, less, Drop(n0, less, children[..k + 1]))
      ensures Sum(incomingEdgeCount) <= Sum(less)
    {
      assert children[..k + 1] == children[..k] + [children[k]];
      DropOnCleared(n0, less, children[..k], children[k]);
      DropSum(n0, less, children[..k]);
    }

    lemma ReleaseDone(n0: seq<EntryNode>, less: seq<nat>, children: seq<nat>, k: nat)
      requires k <= |children| && InRange(n0, children) && |n0| == |less| && InRange(n0, children[..k])
      requires incomingEdgeCount == Drop(n0, less, children[..k]) && nodes == Cleared(n0, less, incomingEdgeCount)
      ensures Released(n0, less, children, k)
      ensures k == |children| ==> incomingEdgeCount == Drop(n0, less, children)
      ensures forall x :: 0 <= x < |less| ==> incomingEdgeCount[x] <= less[x]
    {
      DropLowers(n0, less, children[..k]);
      if k == |children| {
        assert children[..k] == children;
      }
    }

    // ---------- costs ----------

    /** What would be freed by dropping one edge, and the counts after it. */
    method SavedCostIfEdgeToRemoved(id: nat, edgeCounts: seq<nat>) returns (saved: nat, after: seq<nat>)
      requires |nodes| == |edgeCounts| && InRange(nodes, [id])
      ensures after == Drop(nodes, edgeCounts, [id])
      ensures saved + LiveCost(cost, nodes, after) == LiveCost(cost, nodes, edgeCounts)
      decreases Sum(edgeCounts), 0
    {
      DropOne(nodes, edgeCounts, id);
      hide ToVector, LiveCost, NodeCost, Sum, Drop, InRange;
      LessCost(cost, nodes, edgeCounts, id);
      LessSum(edgeCounts, id);
      saved, after := 0, edgeCounts;
      if edgeCounts[id] == 0 {
        return;
      }
      after := edgeCounts[id := edgeCounts[id] - 1];
      if after[id] > 0 {
        return;
      }
      hide Less;
      saved, after := SavedByEdges(ToVector(nodes[id].children), after);
      saved := saved + NodeCost(cost, nodes[id]);
    }

    /** What would be freed by dropping one edge to each of `ids`, in order, and the counts after it. */
    method SavedByEdges(ids: seq<nat>, edgeCounts: seq<nat>) returns (saved: nat, after: seq<nat>)
      requires |nodes| == |edgeCounts| && InRange(nodes, ids)
      ensures after == Drop(nodes, edgeCounts, ids)
      ensures saved + LiveCost(cost, nodes, after) == LiveCost(cost, nodes, edgeCounts)
      decreases Sum(edgeCounts), 1
    {
      saved, after := 0, edgeCounts;
      hide ToVector, LiveCost, Sum;
      for k := 0 to |ids|
        invariant InRange(nodes, ids[..k]) && after == Drop(nodes, edgeCounts, ids[..k])
        invariant saved + LiveCost(cost, nodes, after) == LiveCost(cost, nodes, edgeCounts)
      {
        NextDrop(nodes, edgeCounts, ids, k);
        var more;
        more, after := SavedCostIfEdgeToRemoved(ids[k], after);
        saved := saved + more;
      }
      assert ids[..|ids|] == ids;
    }

    /** What would be freed by dropping the edges to all of `ids`. */
    method SavedCost(ids: set<nat>) returns (saved: nat)
      requires |nodes| == |incomingEdgeCount| && InRange(nodes, ToVector(ids))
      ensures saved == Freed(cost, nodes, incomingEdgeCount, ids)
    {
      hide ToVector, LiveCost, InRange, Drop;
      var after;
      saved, after := SavedByEdges(ToVector(ids), incomingEdgeCount);
    }

    // ---------- subsumption ----------

    method GetDisjunctiveSummary(id: nat) returns (summary: Option<SubsetDefinition>)
      requires Acyclic(nodes, rank) && id < |nodes|
      ensures summary == Summary(nodes, rank, id)
      decreases rank[id]
    {
      SummaryStart(nodes, rank, id);
      hide Summary, SummaryOfAll, Acyclic, ToVector, ChildrenOf, CanUnion, UnionSpaces;
      var node := nodes[id];
      if node.children != {} && (node.mode != OR || !node.sets.Empty()) {
        return None;
      }
      if node.sets.NonEmptySets() > 1 {
        return None;
      }
      var children, acc := ToVector(node.children), node.sets;
      for k := 0 to |children|
        invariant ChildrenOf(nodes, id, children[k..])
        invariant Summary(nodes, rank, id) == SummaryOfAll(nodes, rank, id, children[k..], acc)
      {
        SummaryNext(nodes, rank, id, children, k, acc);
        var child := GetDisjunctiveSummary(children[k]);
        if child.None? {
          return None;
        }
        var space := UnionAxisRanges(acc.space, child.value.space);
        if space.None? {
          return None;
        }
        acc := SubsetDefinition(acc.codepoints + child.value.codepoints, acc.features + child.value.features, space.value);
      }
      assert children[|children|..] == [];
      SummaryEnd(nodes, rank, id, acc);
      return Some(acc);
    }

    /** The cost of one node for all the sets, or of a node with one child for each of them. */
    method CostOfSummary(s: SubsetDefinition) returns (newCost: nat)
      ensures newCost == SummaryCost(cost, s)
    {
      hide *;
      SummaryCostCases(cost, s);
      if s.NonEmptySets() <= 1 {
        return NodeCost(cost, EntryNode(s, NONE, {}, 0));
      }
      var children := (if s.codepoints != {} then {0} else {}) + (if s.features != {} then {1} else {})
                      + (if s.space != map[] then {2} else {});
      var extraChildCost := LeafCosts(Parts(s));
      return NodeCost(cost, EntryNode(NOTHING, OR, children, 0)) + extraChildCost;
    }

    method LeafCosts(parts: seq<SubsetDefinition>) returns (total: nat)
      ensures total == PartsCost(cost, parts)
    {
      total := 0;
      for k := 0 to |parts|
        invariant total == PartsCost(cost, parts[..k])
      {
        PartsCostNext(cost, parts, k);
        total := total + NodeCost(cost, EntryNode(parts[k], NONE, {}, 0));
      }
      assert parts[..|parts|] == parts;
    }

    method CalculateDisjunctiveSubsumption(id: nat) returns (result: SubsumptionResult)
      requires Acyclic(nodes, rank) && id < |nodes| && |nodes| == |incomingEdgeCount|
      ensures DisjunctiveResult(cost, nodes, incomingEdgeCount, rank, id, result)
    {
      hide Summary, Acyclic, InRange, ToVector, Freed, NodeCost, SummaryCost;
      var currentNodeCost := NodeCost(cost, nodes[id]);
      var summary := GetDisjunctiveSummary(id);
      if summary.None? || nodes[id].children == {} {
        return NO_CHANGE;
      }
      var s := summary.value;
      var newCost := CostOfSummary(s);
      ChildrenInRange(nodes, rank, id, nodes[id].children);
      var savedCost := SavedCost(nodes[id].children);
      var costDelta: int := newCost as int - currentNodeCost as int - savedCost as int;
      result := SubsumptionResult(costDelta, nodes[id].children,
                                  Opt<set<nat>>(s.codepoints, {}), Opt<set<nat>>(s.features, {}), Opt<Space>(s.space, map[]));
    }

    method FindCandidates(id: nat) returns (candidates: seq<Candidate>)
      requires Acyclic(nodes, rank) && id < |nodes|
      ensures forall c :: c in candidates <==> Proper(nodes, rank, id, c)
    {
      var children := ToVector(nodes[id].children);
      ChildrenListed(nodes, rank, id);
      assert forall c :: c in nodes[id].children <==> c in children;
      hide Summary, Acyclic, ToVector, Fills, Found, ChildrenOf;
      candidates := [];
      NoneFound(nodes, rank, id, children);
      for k := 0 to |children|
        invariant Found(nodes, rank, id, children, k, candidates)
      {
        FoundNext(nodes, rank, id, children, k, candidates);
        var s := GetDisjunctiveSummary(children[k]);
        if s.Some? && Fills(nodes[id].sets, s.value) {
          candidates := candidates + [Candidate(children[k], s.value)];
        }
      }
      AllFound(nodes, rank, id, children, candidates);
    }

    method TestCombo(id: nat, cp: Option<Candidate>, feat: Option<Candidate>, ds: Option<Candidate>, best: SubsumptionResult)
      returns (result: SubsumptionResult)
      requires Acyclic(nodes, rank) && id < |nodes| && |nodes| == |incomingEdgeCount| && nodes[id].mode == AND
      requires IsCombo(nodes, rank, id, cp, feat, ds) && FromChoice(cost, nodes, incomingEdgeCount, rank, id, best)
      ensures FromChoice(cost, nodes, incomingEdgeCount, rank, id, result)
      ensures result.costDelta <= best.costDelta
      ensures NoWorse(cost, nodes, incomingEdgeCount, rank, id, result, ChoiceOf(cp, feat, ds))
    {
      hide *;
      ghost var choice := ChoiceOf(cp, feat, ds);
      ComboIsChoice(nodes, rank, id, cp, feat, ds);
      var subsumed := ChoiceOf(cp, feat, ds).Ids();
      if subsumed == {} {
        NothingChosen(cost, nodes, incomingEdgeCount, rank, id, best, choice);
        return best;
      }
      var sets := TestSets(nodes[id].sets, cp, feat, ds);
      var testNode := nodes[id].(sets := sets, children := nodes[id].children - subsumed);
      var newCost := NodeCost(cost, testNode);
      var savedCost := SavedCost(subsumed);
      var delta: int := newCost as int - NodeCost(cost, nodes[id]) as int - savedCost as int;
      var combo := SubsumptionResult(delta, subsumed, Some(sets.codepoints), Some(sets.features), Some(sets.space));
      ComboResult(cost, nodes, incomingEdgeCount, rank, id, choice, sets, testNode, combo);
      Improved(cost, nodes, incomingEdgeCount, rank, id, best, choice, combo);
      return if delta < best.costDelta then combo else best;
    }

    method CalculateConjunctiveSubsumption(id: nat) returns (best: SubsumptionResult)
      requires Acyclic(nodes, rank) && id < |nodes| && |nodes| == |incomingEdgeCount| && nodes[id].mode == AND
      ensures ConjunctiveResult(cost, nodes, incomingEdgeCount, rank, id, best)
    {
      best := NOT_FOUND;
      NotFoundYet(cost, nodes, incomingEdgeCount, rank, id);
      if nodes[id].sets.NonEmptySets() == 3 {
        return;
      }
      var candidates := FindCandidates(id);
      var cps, feats, dss := SplitCandidates(candidates);
      SplitAll(nodes, rank, id, candidates, cps, feats, dss);
      best := TestCombos(id, cps, feats, dss);
    }

    method TestCombos(id: nat, cps: seq<Option<Candidate>>, feats: seq<Option<Candidate>>, dss: seq<Option<Candidate>>)
      returns (best: SubsumptionResult)
      requires Acyclic(nodes, rank) && id < |nodes| && |nodes| == |incomingEdgeCount| && nodes[id].mode == AND
      requires Lists(nodes, rank, id, cps, feats, dss)
      ensures ConjunctiveResult(cost, nodes, incomingEdgeCount, rank, id, best)
    {
      hide *;
      best := NOT_FOUND;
      NotFoundYet(cost, nodes, incomingEdgeCount, rank, id);
      TestedCarry(cost, nodes, incomingEdgeCount, rank, id, cps, feats, dss, 0, 0, best);
      for a := 0 to |cps|
        invariant FromChoice(cost, nodes, incomingEdgeCount, rank, id, best)
        invariant TestedBefore(cost, nodes, incomingEdgeCount, rank, id, cps, feats, dss, a, 0, 0, best)
      {
        for b := 0 to |feats|
          invariant FromChoice(cost, nodes, incomingEdgeCount, rank, id, best)
          invariant TestedBefore(cost, nodes, incomingEdgeCount, rank, id, cps, feats, dss, a, b, 0, best)
        {
          for c := 0 to |dss|
            invariant FromChoice(cost, nodes, incomingEdgeCount, rank, id, best)
            invariant TestedBefore(cost, nodes, incomingEdgeCount, rank, id, cps, feats, dss, a, b, c, best)
          {
            ListsCombine(nodes, rank, id, cps, feats, dss, a, b, c);
            ghost var before := best;
            best := TestCombo(id, cps[a], feats[b], dss[c], best);
            TestedNext(cost, nodes, incomingEdgeCount, rank, id, cps, feats, dss, a, b, c, before, best);
          }
          TestedCarry(cost, nodes, incomingEdgeCount, rank, id, cps, feats, dss, a, b, best);
        }
        TestedCarry(cost, nodes, incomingEdgeCount, rank, id, cps, feats, dss, a, |feats|, best);
      }
      AllTested(cost, nodes, incomingEdgeCount, rank, id, cps, feats, dss, best);
    }

    /** What subsuming into this node gives, whichever kind it is. */
    ghost predicate ResultFor(id: nat, r: SubsumptionResult)
      requires Acyclic(nodes, rank) && id < |nodes| && |nodes| == |incomingEdgeCount|
      reads this
    {
      IsResultFor(cost, nodes, incomingEdgeCount, rank, id, r)
    }

    method CalculateSubsumptionCostDelta(id: nat) returns (result: SubsumptionResult)
      requires Acyclic(nodes, rank) && id < |nodes| && |nodes| == |incomingEdgeCount|
      ensures ResultFor(id, result)
    {
      if nodes[id].mode == OR || nodes[id].mode == NONE {
        result := CalculateDisjunctiveSubsumption(id);
      } else {
        result := CalculateConjunctiveSubsumption(id);
      }
    }

    // ---------- actuating a subsumption ----------

    method DetachChild(id: nat, child: nat)
      requires id < |nodes| == |incomingEdgeCount| && InRange(nodes, [child])
      modifies this`nodes, this`incomingEdgeCount
      ensures incomingEdgeCount == Drop(old(nodes), old(incomingEdgeCount), [child])
      ensures var cleared := Cleared(old(nodes), old(incomingEdgeCount), incomingEdgeCount);
              nodes == cleared[id := cleared[id].(children := cleared[id].children - {child})]
    {
      DecrementIncomingEdges(child);
      nodes := nodes[id := nodes[id].(children := nodes[id].children - {child})];
    }

    method DetachAll(id: nat, ids: seq<nat>)
      requires id < |nodes| == |incomingEdgeCount| && InRange(nodes, ids) && Acyclic(nodes, rank)
      requires incomingEdgeCount[id] > 0 && Below(rank, ids, rank[id])
      modifies this`nodes, this`incomingEdgeCount
      ensures PartlyDetached(old(nodes), old(incomingEdgeCount), id, ids, |ids|, nodes, incomingEdgeCount)
    {
      ghost var n, c := nodes, incomingEdgeCount;
      hide PartlyDetached, InRange, Below, Drop, Cleared, Acyclic;
      DetachStart(n, c, id, ids);
      for k := 0 to |ids|
        invariant PartlyDetached(n, c, id, ids, k, nodes, incomingEdgeCount)
      {
        DetachNext(n, c, rank, id, ids, k, nodes, incomingEdgeCount);
        DetachChild(id, ids[k]);
      }
    }

    method DetachChildren(id: nat, taken: set<nat>, ghost roots: set<nat>)
      requires WellFormed(nodes, incomingEdgeCount, rank, roots) && id < |nodes| == |incomingEdgeCount|
      requires incomingEdgeCount[id] > 0 && taken <= nodes[id].children
      modifies this`nodes, this`incomingEdgeCount
      ensures IsWithout(old(nodes), old(incomingEdgeCount), rank, roots, id, taken, nodes, incomingEdgeCount)
      ensures |nodes| == |old(nodes)|
    {
      ghost var n, c := nodes, incomingEdgeCount;
      Lengths(n, c, rank, roots);
      DetachedAcyclic(n, rank, id, taken);
      hide *;
      var ids := ToVector(taken);
      DetachAll(id, ids);
      DetachEnd(n, c, rank, roots, id, taken, ids, nodes, incomingEdgeCount);
    }

    /** Fails when the ids run out. */
    method CreateNode(conditionIndex: nat) returns (id: Option<nat>)
      requires |nodes| == |incomingEdgeCount| == |rank|
      modifies this`nodes, this`incomingEdgeCount, this`rank
      ensures id.None? <==> old(|nodes|) > UINT32_MAX
      ensures id.None? ==> nodes == old(nodes) && incomingEdgeCount == old(incomingEdgeCount) && rank == old(rank)
      ensures id.Some? ==>
        && id.value == old(|nodes|)
        && nodes == old(nodes) + [EntryNode(NOTHING, NONE, {}, conditionIndex)]
        && incomingEdgeCount == old(incomingEdgeCount) + [0] && rank == old(rank) + [0]
    {
      if |nodes| > UINT32_MAX {
        return None;
      }
      id := Some(|nodes|);
      nodes := nodes + [EntryNode(NOTHING, NONE, {}, conditionIndex)];
      incomingEdgeCount := incomingEdgeCount + [0];
      rank := rank + [0];
    }

    /** Adds a leaf with one local set below a node. */
    method AddLeafChild(id: nat, sets: SubsetDefinition) returns (ok: bool)
      requires |nodes| == |incomingEdgeCount| == |rank| && id < |nodes|
      modifies this`nodes, this`incomingEdgeCount, this`rank
      ensures !ok ==> |nodes| > UINT32_MAX
      ensures ok ==>
        var m := old(nodes)[id].(children := old(nodes)[id].children + {old(|nodes|)});
        && nodes == old(nodes)[id := m] + [EntryNode(sets, NONE, {}, m.conditionIndex)]
        && incomingEdgeCount == old(incomingEdgeCount) + [1] && rank == old(rank) + [0]
      ensures |nodes| <= |old(nodes)| + 1
    {
      var leaf := CreateNode(nodes[id].conditionIndex);
      if leaf.None? {
        return false;
      }
      nodes := nodes[leaf.value := nodes[leaf.value].(sets := sets)];
      incomingEdgeCount := incomingEdgeCount[leaf.value := incomingEdgeCount[leaf.value] + 1];
      nodes := nodes[id := nodes[id].(children := nodes[id].children + {leaf.value})];
      return true;
    }

    /** A conjunctive node takes over the chosen sets. */
    method FillSets(id: nat, result: SubsumptionResult, ghost n: seq<EntryNode>, ghost c: seq<nat>, ghost roots: set<nat>)
      requires Acyclic(n, rank) && id < |n| == |c| && n[id].mode == AND && result.subsumedChildren != {}
      requires FromChoice(cost, n, c, rank, id, result) && WellFormed(n, c, rank, roots)
      requires id < |nodes| && IsWithout(n, c, rank, roots, id, result.subsumedChildren, nodes, incomingEdgeCount)
      modifies this`nodes
      ensures Rewrites(n, c, rank, roots, nodes, incomingEdgeCount, rank)
      ensures Costs(cost, n, c, result.costDelta, nodes, incomingEdgeCount)
      ensures |nodes| == |old(nodes)|
    {
      hide *;
      ghost var n2 := nodes;
      var sets := nodes[id].sets;
      if result.codepoints.Some? {
        sets := sets.(codepoints := result.codepoints.value);
      }
      if result.features.Some? {
        sets := sets.(features := result.features.value);
      }
      if result.space.Some? {
        sets := sets.(space := result.space.value);
      }
      nodes := nodes[id := nodes[id].(sets := sets)];
      FilledSets(cost, n, c, rank, roots, id, result, n2, incomingEdgeCount, sets);
    }

    /** The new leaves so far. */
    ghost predicate Growing(id: nat, n2: seq<EntryNode>, c2: seq<nat>, r: seq<nat>, roots: set<nat>, parts: seq<SubsetDefinition>)
      reads this
    {
      && Grown(n2, c2, r, roots, id, parts, nodes, incomingEdgeCount, rank)
      && GrownCost(cost, n2, c2, id, parts, nodes, incomingEdgeCount)
    }

    method GrowLeaf(id: nat, sets: SubsetDefinition, ghost n2: seq<EntryNode>, ghost c2: seq<nat>, ghost r: seq<nat>,
                    ghost roots: set<nat>, ghost parts: seq<SubsetDefinition>)
      returns (ok: bool)
      requires Growing(id, n2, c2, r, roots, parts) && id < |r| && r[id] > 0
      modifies this`nodes, this`incomingEdgeCount, this`rank
      ensures !ok ==> |nodes| > UINT32_MAX
      ensures ok ==> Growing(id, n2, c2, r, roots, parts + [sets])
      ensures |nodes| <= |old(nodes)| + 1
    {
      hide Consistent, LeavesOf, LiveCost, NodeCost, PartsCost;
      ghost var conditionIndex := nodes[id].conditionIndex;
      GrowNext(n2, c2, r, roots, id, parts, nodes, incomingEdgeCount, rank, sets, conditionIndex);
      GrownCostNext(cost, n2, c2, id, parts, nodes, incomingEdgeCount, sets, conditionIndex);
      hide Grown, GrownCost;
      ok := AddLeafChild(id, sets);
    }

    /** A disjunctive node becomes a leaf with the union of all its children's sets, or gets a leaf for each kind of set. */
    method TakeUnion(id: nat, result: SubsumptionResult, ghost n: seq<EntryNode>, ghost c: seq<nat>, ghost roots: set<nat>)
      returns (ok: bool)
      requires Acyclic(n, rank) && id < |n| == |c| && result.subsumedChildren != {}
      requires DisjunctiveResult(cost, n, c, rank, id, result) && WellFormed(n, c, rank, roots)
      requires id < |nodes| && IsWithout(n, c, rank, roots, id, result.subsumedChildren, nodes, incomingEdgeCount)
      modifies this`nodes, this`incomingEdgeCount, this`rank
      ensures !ok ==> |nodes| > UINT32_MAX
      ensures ok ==> Rewrites(n, c, old(rank), roots, nodes, incomingEdgeCount, rank)
      ensures ok ==> Costs(cost, n, c, result.costDelta, nodes, incomingEdgeCount)
      ensures |nodes| <= |old(nodes)| + 3
    {
      ghost var n2, c2, r := nodes, incomingEdgeCount, rank;
      hide *;
      DisjunctiveFacts(cost, n, c, rank, roots, id, result);
      ghost var s := Summary(n, rank, id).value;
      SetsOfResult(result, s);
      var nonEmpty := (if result.codepoints.Some? then 1 else 0) + (if result.features.Some? then 1 else 0)
                      + (if result.space.Some? then 1 else 0);
      if nonEmpty <= 1 {
        var sets := SubsetDefinition(
          if result.codepoints.Some? then result.codepoints.value else {},
          if result.features.Some? then result.features.value else {},
          if result.space.Some? then result.space.value else map[]);
        nodes := nodes[id := nodes[id].(sets := sets, mode := NONE)];
        BecomesLeaf(cost, n, c, rank, roots, id, result, n2, c2, nodes[id]);
        return true;
      }
      StartGrowing(n, c, rank, roots, id, n2, c2, nodes[id].(sets := NOTHING, mode := OR), cost);
      nodes := nodes[id := nodes[id].(sets := NOTHING, mode := OR)];
      NowGrowing(id, n2, c2, r, roots, []);
      ok := GrowLeaves(id, result, n2, c2, r, roots);
      if ok {
        DoneGrowing(id, n, c, r, roots, result, n2, c2, PartsOf(result));
      }
    }

    /** One leaf for each set of the result. */
    method GrowLeaves(id: nat, result: SubsumptionResult, ghost n2: seq<EntryNode>, ghost c2: seq<nat>, ghost r: seq<nat>, ghost roots: set<nat>)
      returns (ok: bool)
      requires Growing(id, n2, c2, r, roots, []) && id < |r| && r[id] > 0
      modifies this`nodes, this`incomingEdgeCount, this`rank
      ensures !ok ==> |nodes| > UINT32_MAX
      ensures ok ==> Growing(id, n2, c2, r, roots, PartsOf(result))
      ensures |nodes| <= |old(nodes)| + 3
    {
      hide Growing;
      ghost var parts: seq<SubsetDefinition> := [];
      ok := true;
      if result.codepoints.Some? {
        ok := GrowLeaf(id, NOTHING.(codepoints := result.codepoints.value), n2, c2, r, roots, parts);
        parts := parts + [NOTHING.(codepoints := result.codepoints.value)];
      }
      if ok && result.features.Some? {
        ok := GrowLeaf(id, NOTHING.(features := result.features.value), n2, c2, r, roots, parts);
        parts := parts + [NOTHING.(features := result.features.value)];
      }
      if ok && result.space.Some? {
        ok := GrowLeaf(id, NOTHING.(space := result.space.value), n2, c2, r, roots, parts);
        parts := parts + [NOTHING.(space := result.space.value)];
      }
      assert ok ==> parts == PartsOf(result);
    }

    lemma NowGrowing(id: nat, n2: seq<EntryNode>, c2: seq<nat>, r: seq<nat>, roots: set<nat>, parts: seq<SubsetDefinition>)
      requires Grown(n2, c2, r, roots, id, parts, nodes, incomingEdgeCount, rank)
      requires GrownCost(cost, n2, c2, id, parts, nodes, incomingEdgeCount)
      ensures Growing(id, n2, c2, r, roots, parts)
    {
    }

    lemma DoneGrowing(id: nat, n: seq<EntryNode>, c: seq<nat>, r: seq<nat>, roots: set<nat>, result: SubsumptionResult,
                      n2: seq<EntryNode>, c2: seq<nat>, parts: seq<SubsetDefinition>)
      requires Acyclic(n, r) && id < |n| == |c| && result.subsumedChildren != {}
      requires DisjunctiveResult(cost, n, c, r, id, result) && WellFormed(n, c, r, roots)
      requires IsWithout(n, c, r, roots, id, result.subsumedChildren, n2, c2)
      requires Growing(id, n2, c2, r, roots, parts)
      requires Summary(n, r, id).Some? && parts == Parts(Summary(n, r, id).value) && |parts| >= 2
      ensures Rewrites(n, c, r, roots, nodes, incomingEdgeCount, rank)
      ensures Costs(cost, n, c, result.costDelta, nodes, incomingEdgeCount)
    {
      hide Grown, GrownCost, Parts, Summary, WellFormed, IsWithout, DisjunctiveResult, Acyclic;
      BecomesParent(cost, n, c, r, roots, id, result, n2, c2, parts, nodes, incomingEdgeCount, rank);
    }

    /** Puts a result into effect: the graph stays well formed, every node that is still live means what it meant, and
        the total cost changes by exactly what was predicted. It can only fail when the ids run out. */
    method ActuateSubsumption(id: nat, result: SubsumptionResult, ghost roots: set<nat>) returns (ok: bool)
      requires WellFormed(nodes, incomingEdgeCount, rank, roots) && Acyclic(nodes, rank)
      requires id < |nodes| == |incomingEdgeCount| && incomingEdgeCount[id] > 0 && ResultFor(id, result)
      modifies this`nodes, this`incomingEdgeCount, this`rank
      ensures !ok ==> |nodes| > UINT32_MAX
      ensures ok ==> Rewrites(old(nodes), old(incomingEdgeCount), old(rank), roots, nodes, incomingEdgeCount, rank)
      ensures ok ==> Costs(cost, old(nodes), old(incomingEdgeCount), if result.subsumedChildren == {} then 0 else result.costDelta,
                           nodes, incomingEdgeCount)
      ensures |nodes| <= |old(nodes)| + 3
    {
      ghost var n, c, r := nodes, incomingEdgeCount, rank;
      if result.subsumedChildren == {} {
        RewritesNothing(n, c, r, roots);
        return true;
      }
      SubsumedAreChildren(id, result);
      Split(id, result);
      hide *;
      DetachChildren(id, result.subsumedChildren, roots);
      WithoutShape(n, c, r, roots, id, result.subsumedChildren, nodes, incomingEdgeCount);
      ok := true;
      if nodes[id].mode == OR || nodes[id].mode == NONE {
        ok := TakeUnion(id, result, n, c, roots);
      } else {
        FillSets(id, result, n, c, roots);
      }
    }

    lemma Split(id: nat, r: SubsumptionResult)
      requires Acyclic(nodes, rank) && id < |nodes| == |incomingEdgeCount| && ResultFor(id, r)
      ensures nodes[id].mode == AND ==> FromChoice(cost, nodes, incomingEdgeCount, rank, id, r)
      ensures nodes[id].mode != AND ==> DisjunctiveResult(cost, nodes, incomingEdgeCount, rank, id, r)
    {
    }

    lemma SubsumedAreChildren(id: nat, r: SubsumptionResult)
      requires Acyclic(nodes, rank) && id < |nodes| == |incomingEdgeCount| && ResultFor(id, r)
      ensures r.subsumedChildren <= nodes[id].children
    {
      if nodes[id].mode == AND && r != NOT_FOUND {
        var choice :| IsChoiceResult(cost, nodes, incomingEdgeCount, rank, id, choice, r);
        ChoiceIsChildren(nodes, rank, id, choice);
      }
    }

    // ---------- sorting ----------

    /** The counts without the roots in `done`. */
    ghost predicate RootsRemoved(edgeCount: seq<nat>, done: set<Key>)
      reads this
    {
      && |edgeCount| == |incomingEdgeCount|
      && forall x: nat :: x < |edgeCount| ==>
           edgeCount[x] + (if exists k :: k in done && k in conditionToNodeId && conditionToNodeId[k] == x then 1 else 0)
           == incomingEdgeCount[x]
    }

    lemma RemoveRoot(edgeCount: seq<nat>, done: set<Key>, k: Key)
      requires Consistent(nodes, incomingEdgeCount, rank, Roots(), multiset{}) && DistinctRoots()
      requires RootsRemoved(edgeCount, done) && done <= patchMappings.Keys && k in patchMappings && k !in done
      ensures if k in conditionToNodeId
              then var id := conditionToNodeId[k];
                   id < |edgeCount| && edgeCount[id] > 0 && RootsRemoved(edgeCount[id := edgeCount[id] - 1], done + {k})
              else RootsRemoved(edgeCount, done + {k})
    {
      hide InDegree, Acyclic;
      if k in conditionToNodeId {
        assert conditionToNodeId[k] in Roots();
      }
    }

    lemma RootsAreRemoved(edgeCount: seq<nat>)
      requires Consistent(nodes, incomingEdgeCount, rank, Roots(), multiset{})
      requires RootsRemoved(edgeCount, patchMappings.Keys)
      ensures IsRemaining(nodes, seq(|nodes|, _ => 1), edgeCount, [])
    {
      forall x: nat | x < |nodes| ensures edgeCount[x] == InDegree(nodes, seq(|nodes|, _ => 1), x) {
        InDegreeSame(nodes, incomingEdgeCount, nodes, seq(|nodes|, _ => 1), x);
      }
    }

    /** On a consistent graph the sort meets neither its underflow nor its cycle error. */
    method TopologicalSort() returns (result: Result<seq<nat>>)
      requires Consistent(nodes, incomingEdgeCount, rank, Roots(), multiset{}) && DistinctRoots()
      ensures result.Ok? && Topological(nodes, result.value) && ByPriority(nodes, result.value)
    {
      var edgeCount, rest := incomingEdgeCount, patchMappings.Keys;
      assert patchMappings.Keys - rest == {};
      NotYetRemoved();
      hide Consistent, RootsRemoved, DistinctRoots, Roots;
      while rest != {}
        invariant rest <= patchMappings.Keys && RootsRemoved(edgeCount, patchMappings.Keys - rest)
        decreases |rest|
      {
        var k :| k in rest;
        RemoveRoot(edgeCount, patchMappings.Keys - rest, k);
        assert patchMappings.Keys - rest + {k} == patchMappings.Keys - (rest - {k});
        rest := rest - {k};
        if k in conditionToNodeId {
          if edgeCount[conditionToNodeId[k]] == 0 {
            return Error;
          }
          edgeCount := edgeCount[conditionToNodeId[k] := edgeCount[conditionToNodeId[k]] - 1];
        }
      }
      assert patchMappings.Keys - {} == patchMappings.Keys;
      RootsAreRemoved(edgeCount);
      ConsistentIsAcyclic(nodes, incomingEdgeCount, rank, Roots());
      result := Kahn(nodes, edgeCount, rank);
    }

    lemma NotYetRemoved()
      ensures RootsRemoved(incomingEdgeCount, {})
    {
    }

    // ---------- optimising ----------

    /** No subsumption into this node would lower the cost. */
    ghost predicate NoGain(id: nat)
      requires Acyclic(nodes, rank) && id < |nodes| == |incomingEdgeCount|
      reads this
    {
      forall r :: ResultFor(id, r) ==> r.costDelta >= 0
    }

    lemma NoGainFound(id: nat, r: SubsumptionResult)
      requires Acyclic(nodes, rank) && id < |nodes| == |incomingEdgeCount| && ResultFor(id, r) && r.costDelta >= 0
      ensures NoGain(id)
    {
      forall r' | ResultFor(id, r') ensures r'.costDelta >= 0 {
        if nodes[id].mode == AND {
          hide ConjunctiveResult;
          ConjunctiveDeltaUnique(cost, nodes, incomingEdgeCount, rank, id, r, r');
        }
      }
    }

    /** A result that gains anything belongs to a live node, and changes it. */
    lemma GainIsLive(id: nat, r: SubsumptionResult, roots: set<nat>)
      requires WellFormed(nodes, incomingEdgeCount, rank, roots) && Acyclic(nodes, rank)
      requires id < |nodes| == |incomingEdgeCount| && ResultFor(id, r) && r.costDelta < 0
      ensures incomingEdgeCount[id] > 0 && r.subsumedChildren != {}
    {
      ParentsAreLive(nodes, incomingEdgeCount, rank, roots, multiset{}, id);
      SubsumedAreChildren(id, r);
    }

    /** One pass over the nodes, children before their parents. */
    method OptimizeOnce(ghost n: seq<EntryNode>, ghost c: seq<nat>, ghost r: seq<nat>, ghost roots: set<nat>)
      returns (ok: bool, changed: bool)
      requires WellFormed(n, c, r, roots) && roots == Roots() && DistinctRoots()
      requires Rewrites(n, c, r, roots, nodes, incomingEdgeCount, rank)
      modifies this`nodes, this`incomingEdgeCount, this`rank
      ensures !ok ==> |nodes| > UINT32_MAX
      ensures ok ==> Rewrites(n, c, r, roots, nodes, incomingEdgeCount, rank)
      ensures ok ==> |nodes| == |incomingEdgeCount| && |old(nodes)| == |old(incomingEdgeCount)|
                     && LiveCost(cost, nodes, incomingEdgeCount) <= LiveCost(cost, old(nodes), old(incomingEdgeCount))
      ensures ok && changed ==> LiveCost(cost, nodes, incomingEdgeCount) < LiveCost(cost, old(nodes), old(incomingEdgeCount))
      ensures ok && !changed ==> Acyclic(nodes, rank) && forall id: nat :: id < |nodes| ==> NoGain(id)
      ensures |old(nodes)| == |old(incomingEdgeCount)|
              && |nodes| <= |old(nodes)| + 3 * LiveCost(cost, old(nodes), old(incomingEdgeCount)) + 3
      ensures ok ==> |nodes| + 3 * LiveCost(cost, nodes, incomingEdgeCount) <= |old(nodes)| + 3 * LiveCost(cost, old(nodes), old(incomingEdgeCount))
    {
      hide *;
      RewritesFacts(n, c, r, roots, nodes, incomingEdgeCount, rank);
      ghost var before := LiveCost(cost, nodes, incomingEdgeCount);
      ok, changed := true, false;
      var sortResult := TopologicalSort();
      if sortResult.Error? {
        return false, false;
      }
      var sorted := sortResult.value;
      TopologicalFacts(nodes, sorted);
      for i := |sorted| downto 0
        invariant roots == Roots() && Rewrites(n, c, r, roots, nodes, incomingEdgeCount, rank)
        invariant |old(nodes)| <= |nodes| == |incomingEdgeCount| && Acyclic(nodes, rank)
        invariant LiveCost(cost, nodes, incomingEdgeCount) <= before
        invariant |nodes| + 3 * LiveCost(cost, nodes, incomingEdgeCount) <= |old(nodes)| + 3 * before
        invariant changed ==> LiveCost(cost, nodes, incomingEdgeCount) < before
        invariant !changed ==> nodes == old(nodes) && forall j :: i <= j < |sorted| ==> NoGain(sorted[j])
      {
        RewritesFacts(n, c, r, roots, nodes, incomingEdgeCount, rank);
        var result := CalculateSubsumptionCostDelta(sorted[i]);
        if result.costDelta < 0 {
          GainIsLive(sorted[i], result, roots);
          ghost var n2, c2, r2 := nodes, incomingEdgeCount, rank;
          ok := ActuateSubsumption(sorted[i], result, roots);
          if !ok {
            return;
          }
          AfterActuating(cost, n, c, r, roots, n2, c2, r2, nodes, incomingEdgeCount, rank, result.costDelta);
          changed := true;
        } else {
          NoGainFound(sorted[i], result);
        }
      }
      if !changed {
        forall id: nat | id < |nodes| ensures NoGain(id) {
          assert id in sorted;
          var j :| 0 <= j < |sorted| && sorted[j] == id;
        }
      }
    }

    /** Optimising keeps the meaning of every node that is still live, never raises the total cost, and stops, at a graph
        that no single subsumption can improve. */
    method Optimize() returns (ok: bool)
      requires WellFormed(nodes, incomingEdgeCount, rank, Roots()) && DistinctRoots()
      modifies this`nodes, this`incomingEdgeCount, this`rank
      ensures !ok ==> |nodes| > UINT32_MAX
      ensures ok ==> Rewrites(old(nodes), old(incomingEdgeCount), old(rank), old(Roots()), nodes, incomingEdgeCount, rank)
      ensures ok ==> |nodes| == |incomingEdgeCount| && |old(nodes)| == |old(incomingEdgeCount)|
                     && LiveCost(cost, nodes, incomingEdgeCount) <= LiveCost(cost, old(nodes), old(incomingEdgeCount))
      ensures ok ==> Acyclic(nodes, rank) && forall id: nat :: id < |nodes| ==> NoGain(id)
      ensures |old(nodes)| == |old(incomingEdgeCount)|
              && |nodes| <= |old(nodes)| + 3 * LiveCost(cost, old(nodes), old(incomingEdgeCount)) + 3
    {
      ghost var n, c, r, roots := nodes, incomingEdgeCount, rank, Roots();
      Lengths(n, c, r, roots);
      RewritesNothing(n, c, r, roots);
      var changed := true;
      hide *;
      while changed
        invariant roots == old(Roots()) == Roots() && DistinctRoots()
        invariant Rewrites(n, c, r, roots, nodes, incomingEdgeCount, rank)
        invariant |nodes| == |incomingEdgeCount| && LiveCost(cost, nodes, incomingEdgeCount) <= LiveCost(cost, n, c)
        invariant |nodes| + 3 * LiveCost(cost, nodes, incomingEdgeCount) <= |n| + 3 * LiveCost(cost, n, c)
        invariant !changed ==> Acyclic(nodes, rank) && forall id: nat :: id < |nodes| ==> NoGain(id)
        decreases LiveCost(cost, nodes, incomingEdgeCount), changed
      {
        ok, changed := OptimizeOnce(n, c, r, roots);
        if !ok {
          return;
        }
      }
      ok := true;
    }

    // ---------- adding conditions ----------

    ghost function Snapshot(): Graph
      reads this
    {
      Graph(nodes, incomingEdgeCount, rank, conditionToNodeId, setsToNodeId, Roots())
    }

    lemma SnapshotFields()
      ensures Snapshot() == Graph(nodes, incomingEdgeCount, rank, conditionToNodeId, setsToNodeId, Roots())
    {
    }

    /** A condition without a node yet is no top level condition. */
    lemma RootsStay(k: Key, id: nat)
      requires Registered() && k !in conditionToNodeId
      ensures Roots() == RootsOf(patchMappings, conditionToNodeId[k := id])
      ensures patchMappings.Keys <= conditionToNodeId[k := id].Keys
    {
    }

    lemma RootsField()
      ensures Roots() == RootsOf(patchMappings, conditionToNodeId)
      ensures Registered() <==> patchMappings.Keys <= conditionToNodeId.Keys
    {
    }

    /** A leaf with one local set; conditions with the same set share it. */
    method AddSetsOnly(sets: SubsetDefinition, conditionIndex: nat, ghost segments: Segments, ghost open: set<Key>, ghost pending: multiset<nat>)
      returns (id: Option<nat>)
      requires Building(segments, Snapshot(), open, pending) && sets.NonEmptySets() == 1 && Piece(segments, sets)
      modifies this`nodes, this`incomingEdgeCount, this`rank, this`setsToNodeId
      ensures id.None? ==> |nodes| > UINT32_MAX
      ensures id.Some? ==> Building(segments, Snapshot(), open, pending + multiset{id.value}) && Extends(old(Snapshot()), Snapshot())
      ensures id.Some? ==> sets in setsToNodeId && setsToNodeId[sets] == id.value
      ensures Grew(segments, conditionIndex, old(nodes), nodes, 1)
    {
      hide *;
      ghost var g := Snapshot();
      SnapshotFields();
      GrewNot(segments, conditionIndex, nodes);
      GrewAtMost(segments, conditionIndex, nodes, nodes, 0, 1);
      GrewByOne(segments, conditionIndex, nodes, EntryNode(sets, NONE, {}, conditionIndex));
      BuildingFacts(segments, g, open, pending);
      if sets in setsToNodeId {
        var existing := setsToNodeId[sets];
        PromiseBuilding(segments, g, open, pending, existing);
        incomingEdgeCount := incomingEdgeCount[existing := incomingEdgeCount[existing] + 1];
        SnapshotFields();
        return Some(existing);
      }
      NewLeaf(segments, g, open, pending, sets, EntryNode(sets, NONE, {}, conditionIndex));
      WithNodeFields(g, EntryNode(sets, NONE, {}, conditionIndex));
      id := CreateNode(conditionIndex);
      if id.None? {
        return;
      }
      incomingEdgeCount := incomingEdgeCount[id.value := incomingEdgeCount[id.value] + 1];
      setsToNodeId := setsToNodeId[sets := id.value];
      nodes := nodes[id.value := nodes[id.value].(sets := sets)];
      assert nodes == g.nodes + [EntryNode(sets, NONE, {}, conditionIndex)];
      assert incomingEdgeCount == g.counts + [1];
      RootsField();
      SnapshotFields();
    }

    method InsertChildren(id: nat, children: seq<nat>)
      requires id < |nodes|
      modifies this`nodes
      ensures nodes == Linked(old(nodes), id, children)
    {
      ghost var n := nodes;
      assert ToSet(children[..0]) == {};
      assert n[id].children + {} == n[id].children;
      for i := 0 to |children|
        invariant nodes == Linked(n, id, children[..i])
      {
        assert ToSet(children[..i + 1]) == ToSet(children[..i]) + {children[i]} by {
          assert children[..i + 1] == children[..i] + [children[i]];
        }
        assert n[id].children + ToSet(children[..i]) + {children[i]} == n[id].children + (ToSet(children[..i]) + {children[i]});
        nodes := nodes[id := nodes[id].(children := nodes[id].children + {children[i]})];
      }
      assert children[..|children|] == children;
    }

    /** Takes one chunk of children and goes on with a new node below. */
    method NextLink(cur: nat, chunk: seq<nat>, mode: ChildMode, ghost r: nat, ghost segments: Segments, ghost conditionIndex: nat) returns (next: Option<nat>)
      requires cur < |nodes| == |incomingEdgeCount| == |rank| && nodes[cur].conditionIndex == conditionIndex
      modifies this`nodes, this`incomingEdgeCount, this`rank
      ensures next.None? ==> |nodes| > UINT32_MAX
      ensures next.Some? ==>
        && next.value == old(|nodes|)
        && incomingEdgeCount == old(incomingEdgeCount) + [1] && rank == old(rank) + [r]
        && var n1 := Linked(old(nodes), cur, chunk) + [EntryNode(NOTHING, mode, {}, old(ConditionIndexOf(cur)))];
           nodes == n1[cur := n1[cur].(children := n1[cur].children + {next.value})]
      ensures Grew(segments, conditionIndex, old(nodes), nodes, 1)
    {
      LinkedIndex(nodes, cur, chunk);
      GrewNotByLinks(segments, conditionIndex, nodes, cur, chunk);
      GrewAtMost(segments, conditionIndex, nodes, Linked(nodes, cur, chunk), 0, 1);
      GrewByLink(segments, conditionIndex, nodes, cur, chunk, EntryNode(NOTHING, mode, {}, ConditionIndexOf(cur)), |nodes|);
      hide Linked, Grew;
      InsertChildren(cur, chunk);
      next := CreateNode(nodes[cur].conditionIndex);
      if next.None? {
        return;
      }
      nodes := nodes[next.value := nodes[next.value].(mode := mode)];
      incomingEdgeCount := incomingEdgeCount[next.value := incomingEdgeCount[next.value] + 1];
      rank := rank[next.value := r];
      nodes := nodes[cur := nodes[cur].(children := nodes[cur].children + {next.value})];
    }

    /** Makes all of `children` count for the node: directly, or through a chain of nodes with at most 127 children each. */
    method AddChildrenToNode(id: nat, mode: ChildMode, children: seq<nat>, ghost segments: Segments, ghost open: set<Key>, ghost k: Key,
                             ghost bound: nat, ghost pending: multiset<nat>, ghost conditionIndex: nat)
      returns (ok: bool)
      requires Building(segments, Snapshot(), open, pending + multiset(children))
      requires k in open && k in conditionToNodeId && id == conditionToNodeId[k] && id < |nodes| == |rank| && nodes[id].conditionIndex == conditionIndex
      requires nodes[id].mode == mode && nodes[id].children == {} && nodes[id].sets == NOTHING
      requires Linkable(Snapshot(), id, children, bound) && rank[id] <= bound
      requires forall i :: 0 <= i < |children| ==> children[i] < |nodes| && Solid(nodes[children[i]])
      requires forall i, k' :: 0 <= i < |children| && k' in open && k' in conditionToNodeId ==> children[i] != conditionToNodeId[k']
      requires open <= conditionToNodeId.Keys && (mode == AND || (mode == OR && children != []))
      modifies this`nodes, this`incomingEdgeCount, this`rank
      ensures !ok ==> |nodes| > UINT32_MAX
      ensures ok ==> Building(segments, Snapshot(), open, pending) && ExtendsBut(old(Snapshot()), Snapshot(), id)
      ensures ok ==> Combines(nodes, rank, id, mode, children)
      ensures ok ==> id < |nodes| && (children != [] ==> nodes[id].children != {})
      ensures ok ==> |old(nodes)| <= |nodes| && IsShortestChain(|children|, |nodes| - |old(nodes)|)
      ensures Grew(segments, conditionIndex, old(nodes), nodes, |children|)
    {
      hide *;
      ghost var g := Snapshot();
      SnapshotFields();
      ChainingStarts(segments, g, open, k, mode, children, bound, pending);
      rank := rank[id := bound + |children|];
      ghost var m;
      var cur, rest;
      ok, cur, rest, m := ChainChildren(id, mode, children, g, bound, pending, segments, conditionIndex);
      ghost var n := nodes;
      if ok {
        ChainingEnds(segments, g, open, k, mode, children, bound, m, pending, nodes, incomingEdgeCount, rank);
        InsertChildren(cur, rest);
        GrewNotByLinks(segments, conditionIndex, n, cur, rest);
        GrewTwice(segments, conditionIndex, g.nodes, n, nodes, |children|, 0);
        SnapshotFields();
      }
    }

    /** Makes the chain but for the children of its last node. */
    method ChainChildren(id: nat, mode: ChildMode, children: seq<nat>, ghost g: Graph, ghost bound: nat, ghost pending: multiset<nat>,
                         ghost segments: Segments, ghost conditionIndex: nat)
      returns (ok: bool, cur: nat, rest: seq<nat>, ghost m: nat)
      requires Chaining(g, id, mode, children, bound, 0, pending, nodes, incomingEdgeCount, rank)
      requires id < |nodes| && nodes[id].conditionIndex == conditionIndex
      modifies this`nodes, this`incomingEdgeCount, this`rank
      ensures !ok ==> |nodes| > UINT32_MAX
      ensures ok ==> Chaining(g, id, mode, children, bound, m, pending, nodes, incomingEdgeCount, rank)
      ensures ok ==> CHUNK * m <= |children| && rest == children[CHUNK * m..] && cur == Link(id, |g.nodes|, m)
      ensures ok ==> |rest| <= MAX_CHILDREN && (m > 0 ==> rest != [])
      ensures ok ==> |nodes| == |old(nodes)| + m && IsShortestChain(|children|, m)
      ensures ok ==> cur < |nodes|
      ensures Grew(segments, conditionIndex, old(nodes), nodes, |children|)
    {
      hide *;
      ok, cur, rest, m := true, id, children, 0;
      LinkZero(id, |g.nodes|);
      NoneYet(|children|);
      GrewNot(segments, conditionIndex, nodes);
      GrewAtMost(segments, conditionIndex, nodes, nodes, 0, |children|);
      while |rest| > MAX_CHILDREN
        invariant Chaining(g, id, mode, children, bound, m, pending, nodes, incomingEdgeCount, rank)
        invariant CHUNK * m <= |children| && rest == children[CHUNK * m..] && cur == Link(id, |g.nodes|, m)
        invariant m > 0 ==> rest != []
        invariant cur < |nodes| && nodes[cur].conditionIndex == conditionIndex
        invariant |nodes| == |old(nodes)| + m && LongerThan(|children|, m)
        invariant Grew(segments, conditionIndex, old(nodes), nodes, m) && Grew(segments, conditionIndex, old(nodes), nodes, |children|)
        decreases |rest|
      {
        ChainingNext(g, id, mode, children, bound, m, pending, nodes, incomingEdgeCount, rank,
                     EntryNode(NOTHING, mode, {}, ConditionIndexOf(cur)));
        ghost var r: nat := bound + |children| - CHUNK * (m + 1);
        ChainingLengths(g, id, mode, children, bound, m, pending, nodes, incomingEdgeCount, rank);
        assert rest[..CHUNK] == children[CHUNK * m..CHUNK * (m + 1)];
        ghost var n := nodes;
        var next := NextLink(cur, rest[..CHUNK], mode, r, segments, conditionIndex);
        GrewTwice(segments, conditionIndex, old(nodes), n, nodes, m, 1);
        FewLinks(m + 1, |children|);
        GrewAtMost(segments, conditionIndex, old(nodes), nodes, m + 1, |children|);
        if next.None? {
          return false, cur, rest, m;
        }
        assert children[CHUNK * m..][CHUNK..] == children[CHUNK * (m + 1)..];
        TooMany(|children|, m);
        cur := next.value;
        NewIndex(segments, conditionIndex, n, nodes, 1, cur);
        rest := rest[CHUNK..];
        m := m + 1;
      }
      Shortest(|children|, m);
      ChainingLengths(g, id, mode, children, bound, m, pending, nodes, incomingEdgeCount, rank);
    }

    /** A node of its own for a condition, without children yet. */
    method OpenNode(k: Key, conditionIndex: nat, ghost segments: Segments, ghost open: set<Key>, ghost pending: multiset<nat>)
      returns (id: Option<nat>)
      requires Building(segments, Snapshot(), open, pending) && KeyOk(segments, k) && !PureKey(segments, k) && k !in conditionToNodeId
      requires Registered()
      modifies this`nodes, this`incomingEdgeCount, this`rank, this`conditionToNodeId
      ensures id.None? ==> |nodes| > UINT32_MAX
      ensures id.Some? ==>
        && Building(segments, Snapshot(), open + {k}, pending + multiset{id.value}) && Extends(old(Snapshot()), Snapshot())
        && k in conditionToNodeId && conditionToNodeId[k] == id.value
        && id.value == old(|nodes|) < |nodes| == |rank| && nodes[id.value] == EntryNode(NOTHING, NONE, {}, conditionIndex)
        && rank[id.value] == 0 && Registered()
      ensures Grew(segments, conditionIndex, old(nodes), nodes, 1)
    {
      hide *;
      ghost var g := Snapshot();
      SnapshotFields();
      GrewNot(segments, conditionIndex, nodes);
      GrewAtMost(segments, conditionIndex, nodes, nodes, 0, 1);
      NothingPiece(segments);
      GrewByOne(segments, conditionIndex, nodes, EntryNode(NOTHING, NONE, {}, conditionIndex));
      BuildingFacts(segments, g, open, pending);
      OpenKey(segments, g, open, pending, k, EntryNode(NOTHING, NONE, {}, conditionIndex));
      WithNodeFields(g, EntryNode(NOTHING, NONE, {}, conditionIndex));
      RootsStay(k, |nodes|);
      id := CreateNode(conditionIndex);
      if id.None? {
        return;
      }
      incomingEdgeCount := incomingEdgeCount[id.value := incomingEdgeCount[id.value] + 1];
      conditionToNodeId := conditionToNodeId[k := id.value];
      assert incomingEdgeCount == g.counts + [1];
      RootsField();
      SnapshotFields();
    }

    /** The children of a segment with more than one kind of set: a leaf for each of them. */
    method AddParts(id: nat, ghost k: Key, definition: SubsetDefinition, conditionIndex: nat, ghost segments: Segments, ghost g0: Graph,
                    ghost open: set<Key>, ghost pending: multiset<nat>)
      returns (ok: bool)
      requires k in conditionToNodeId && conditionToNodeId[k] == id && |g0.nodes| <= id < |nodes| == |rank| && rank[id] == 0
      requires nodes[id].sets == NOTHING && nodes[id].children == {}
      requires Building(segments, Snapshot(), open + {k}, pending) && k !in open && Extends(g0, Snapshot())
      requires Unitary(k) && SegmentOf(k) in segments && definition == segments[SegmentOf(k)] && !definition.Empty()
      modifies this`nodes, this`incomingEdgeCount, this`rank, this`setsToNodeId
      ensures !ok ==> |nodes| > UINT32_MAX
      ensures ok ==> Building(segments, Snapshot(), open, pending) && Extends(g0, Snapshot())
      ensures Grew(segments, conditionIndex, old(nodes), nodes, 3)
    {
      hide *;
      SnapshotFields();
      PartsCount(definition);
      PartsNotEmpty(definition);
      var parts := Parts(definition);
      OpenRaised(segments, Snapshot(), open + {k}, k, pending, 1);
      ExtendsRaised(g0, Snapshot(), id, 1);
      NoPartsYet(Snapshot(), id, parts);
      NoPartsRaised(Snapshot(), id, parts, 1);
      rank := rank[id := 1];
      SnapshotFields();
      GrewNot(segments, conditionIndex, nodes);
      for n := 0 to |parts|
        invariant Building(segments, Snapshot(), open + {k}, pending) && Extends(g0, Snapshot())
        invariant k in conditionToNodeId && conditionToNodeId[k] == id
        invariant id < |nodes| == |rank| && rank[id] == 1 && nodes[id].sets == NOTHING
        invariant HasParts(Snapshot(), id, parts, n)
        invariant Grew(segments, conditionIndex, old(nodes), nodes, n)
      {
        ghost var before := nodes;
        ok := AddPart(id, k, definition, n, conditionIndex, segments, g0, open, pending);
        GrewTwice(segments, conditionIndex, old(nodes), before, nodes, n, 1);
        if !ok {
          GrewAtMost(segments, conditionIndex, old(nodes), nodes, n + 1, 3);
          return false;
        }
      }
      SnapshotFields();
      PartsDone(segments, g0, Snapshot(), open, pending, k, id);
      ghost var before := nodes;
      GrewNotByUpdate(segments, conditionIndex, nodes, id, nodes[id].(mode := OR));
      nodes := nodes[id := nodes[id].(mode := OR)];
      GrewTwice(segments, conditionIndex, old(nodes), before, nodes, |parts|, 0);
      GrewAtMost(segments, conditionIndex, old(nodes), nodes, |parts|, 3);
      SnapshotFields();
      return true;
    }

    /** One leaf for one kind of set of the segment. */
    method AddPart(id: nat, ghost k: Key, definition: SubsetDefinition, n: nat, conditionIndex: nat, ghost segments: Segments, ghost g0: Graph,
                   ghost open: set<Key>, ghost pending: multiset<nat>)
      returns (ok: bool)
      requires k in conditionToNodeId && conditionToNodeId[k] == id && |g0.nodes| <= id < |nodes| == |rank| && rank[id] == 1
      requires nodes[id].sets == NOTHING && HasParts(Snapshot(), id, Parts(definition), n) && n < |Parts(definition)|
      requires Parts(definition)[n].NonEmptySets() == 1
      requires Building(segments, Snapshot(), open + {k}, pending) && k !in open && Extends(g0, Snapshot())
      requires Unitary(k) && SegmentOf(k) in segments && definition == segments[SegmentOf(k)]
      modifies this`nodes, this`incomingEdgeCount, this`rank, this`setsToNodeId
      ensures !ok ==> |nodes| > UINT32_MAX
      ensures ok ==> Building(segments, Snapshot(), open + {k}, pending) && Extends(g0, Snapshot())
      ensures ok ==> id < |nodes| == |rank| && rank[id] == 1 && nodes[id].sets == NOTHING
      ensures ok ==> HasParts(Snapshot(), id, Parts(definition), n + 1)
      ensures Grew(segments, conditionIndex, old(nodes), nodes, 1)
    {
      hide *;
      var parts := Parts(definition);
      SnapshotFields();
      ghost var g := Snapshot();
      PartPiece(segments, SegmentOf(k), n);
      var c := AddSetsOnly(parts[n], conditionIndex, segments, open + {k}, pending);
      if c.None? {
        return false;
      }
      SnapshotFields();
      KeepsNode(segments, g0, g, Snapshot(), open + {k}, pending + multiset{c.value}, id);
      PartsStay(g, Snapshot(), id, parts, n);
      LinkPart(segments, g0, Snapshot(), open + {k}, pending, k, id, definition, n, c.value);
      LinkedOne(nodes, id, c.value);
      ghost var before := nodes;
      GrewNotByUpdate(segments, conditionIndex, nodes, id, nodes[id].(children := nodes[id].children + {c.value}));
      nodes := nodes[id := nodes[id].(children := nodes[id].children + {c.value})];
      GrewTwice(segments, conditionIndex, old(nodes), before, nodes, 1, 0);
      SnapshotFields();
      return true;
    }

    /** The children of one group with several segments: the node of each segment. */
    method AddAlternatives(id: nat, k: Key, conditionIndex: nat, segments: Segments, ghost g0: Graph, ghost open: set<Key>,
                           ghost pending: multiset<nat>)
      returns (ok: bool)
      requires k in conditionToNodeId && conditionToNodeId[k] == id && |g0.nodes| <= id < |nodes| == |rank|
      requires nodes[id].sets == NOTHING && nodes[id].children == {} && nodes[id].conditionIndex == conditionIndex
      requires SegmentsOk(segments) && Registered()
      requires Building(segments, Snapshot(), open + {k}, pending) && k !in open && Extends(g0, Snapshot())
      requires KeyOk(segments, k) && |k| == 1 && |k[0]| > 1 && Above(open, 1)
      modifies this`nodes, this`incomingEdgeCount, this`rank, this`setsToNodeId, this`conditionToNodeId
      ensures !ok ==> |nodes| > UINT32_MAX
      ensures ok ==> Building(segments, Snapshot(), open, pending) && Extends(g0, Snapshot()) && Registered()
      ensures ok ==> k in conditionToNodeId && conditionToNodeId[k] == id
      ensures Grew(segments, conditionIndex, old(nodes), nodes, 5 * |k[0]|)
      decreases 1, 1
    {
      hide *;
      var alternatives := ToVector(k[0]);
      AlternativesOk(segments, k, open, alternatives);
      SnapshotFields();
      ghost var parts := SegmentKeys(alternatives);
      AddingStarts(segments, g0, Snapshot(), open, pending, k, id, OR, parts);
      GrewNotByUpdate(segments, conditionIndex, nodes, id, nodes[id].(mode := OR));
      nodes := nodes[id := nodes[id].(mode := OR)];
      SnapshotFields();
      ghost var n1 := nodes;
      var children;
      ok, children := FindAlternatives(id, k, alternatives, conditionIndex, segments, g0, open, pending);
      GrewTwice(segments, conditionIndex, old(nodes), n1, nodes, 0, 4 * |alternatives|);
      GrewAtMost(segments, conditionIndex, old(nodes), nodes, 4 * |k[0]|, 5 * |k[0]|);
      if ok {
        ghost var n2 := nodes;
        IndexStays(segments, conditionIndex, n1, nodes, 4 * |alternatives|, id);
        ok := Combine(id, OR, children, k, parts, alternatives, segments, g0, open, pending, conditionIndex);
        GrewTwice(segments, conditionIndex, old(nodes), n2, nodes, 4 * |alternatives|, |children|);
      }
    }

    method FindAlternatives(id: nat, ghost k: Key, alternatives: seq<nat>, conditionIndex: nat, segments: Segments, ghost g0: Graph,
                            ghost open: set<Key>, ghost pending: multiset<nat>)
      returns (ok: bool, children: seq<nat>)
      requires |SegmentKeys(alternatives)| == |alternatives| && SegmentsOk(segments) && Registered()
      requires Adding(segments, g0, Snapshot(), open, pending, k, id, OR, SegmentKeys(alternatives), 0, [])
      requires forall i :: 0 <= i < |alternatives| ==>
                 var c := ExclusiveSegment(alternatives[i], 0);
                 GroupsIn(segments, c.groups) && Above(open + {k}, Level(c.groups)) && Level(c.groups) == 0
                 && c.groups == [{alternatives[i]}] == SegmentKeys(alternatives)[i]
      modifies this`nodes, this`incomingEdgeCount, this`rank, this`setsToNodeId, this`conditionToNodeId
      ensures !ok ==> |nodes| > UINT32_MAX
      ensures ok ==>
        && Registered()
        && Adding(segments, g0, Snapshot(), open, pending, k, id, OR, SegmentKeys(alternatives), |alternatives|, children)
      ensures ok ==> |children| == |alternatives|
      ensures Grew(segments, conditionIndex, old(nodes), nodes, 4 * |alternatives|)
      decreases 1, 0
    {
      hide *;
      ghost var parts := SegmentKeys(alternatives);
      ok, children := true, [];
      GrewNot(segments, conditionIndex, nodes);
      for i := 0 to |alternatives|
        invariant Registered() && Adding(segments, g0, Snapshot(), open, pending, k, id, OR, parts, i, children)
        invariant |children| == i && Grew(segments, conditionIndex, old(nodes), nodes, 4 * i)
      {
        ghost var g := Snapshot();
        SnapshotFields();
        AddingFacts(segments, g0, g, open, pending, k, id, OR, parts, i, children);
        var child;
        ghost var childKey;
        child, childKey := AddMapping(ExclusiveSegment(alternatives[i], 0), segments, conditionIndex, false, open + {k},
                                      pending + multiset(children));
        SimplifiedSingle({alternatives[i]}, childKey);
        SegmentKeyNodes(alternatives[i]);
        GrewTwice(segments, conditionIndex, old(nodes), g.nodes, nodes, 4 * i, 4);
        if child.None? {
          GrewAtMost(segments, conditionIndex, old(nodes), nodes, 4 * i + 4, 4 * |alternatives|);
          return false, children;
        }
        SnapshotFields();
        AddingNext(segments, g0, g, Snapshot(), open, pending, k, id, OR, parts, i, children, child.value);
        children := children + [child.value];
      }
    }

    /** The children of several groups: the node of each group. */
    method AddGroups(id: nat, k: Key, conditionIndex: nat, segments: Segments, ghost g0: Graph, ghost open: set<Key>,
                     ghost pending: multiset<nat>)
      returns (ok: bool)
      requires k in conditionToNodeId && conditionToNodeId[k] == id && |g0.nodes| <= id < |nodes| == |rank|
      requires nodes[id].sets == NOTHING && nodes[id].children == {} && nodes[id].conditionIndex == conditionIndex
      requires SegmentsOk(segments) && Registered()
      requires Building(segments, Snapshot(), open + {k}, pending) && k !in open && Extends(g0, Snapshot())
      requires KeyOk(segments, k) && |k| != 1 && Above(open, 2)
      modifies this`nodes, this`incomingEdgeCount, this`rank, this`setsToNodeId, this`conditionToNodeId
      ensures !ok ==> |nodes| > UINT32_MAX
      ensures ok ==> Building(segments, Snapshot(), open, pending) && Extends(g0, Snapshot()) && Registered()
      ensures ok ==> k in conditionToNodeId && conditionToNodeId[k] == id
      ensures Grew(segments, conditionIndex, old(nodes), nodes, GroupNodes(k) + |k|)
      decreases 2, 1
    {
      hide *;
      GroupsOk(segments, k, open);
      SnapshotFields();
      ghost var parts := GroupKeys(k);
      AddingStarts(segments, g0, Snapshot(), open, pending, k, id, AND, parts);
      GrewNotByUpdate(segments, conditionIndex, nodes, id, nodes[id].(mode := AND));
      nodes := nodes[id := nodes[id].(mode := AND)];
      SnapshotFields();
      ghost var n1 := nodes;
      var children;
      ok, children := FindGroups(id, k, conditionIndex, segments, g0, open, pending);
      GrewTwice(segments, conditionIndex, old(nodes), n1, nodes, 0, GroupNodes(k));
      GrewAtMost(segments, conditionIndex, old(nodes), nodes, GroupNodes(k), GroupNodes(k) + |k|);
      if ok {
        ghost var n2 := nodes;
        IndexStays(segments, conditionIndex, n1, nodes, GroupNodes(k), id);
        ok := Combine(id, AND, children, k, parts, [], segments, g0, open, pending, conditionIndex);
        GrewTwice(segments, conditionIndex, old(nodes), n2, nodes, GroupNodes(k), |children|);
      }
    }

    method FindGroups(id: nat, k: Key, conditionIndex: nat, segments: Segments, ghost g0: Graph, ghost open: set<Key>, ghost pending: multiset<nat>)
      returns (ok: bool, children: seq<nat>)
      requires |GroupKeys(k)| == |k| && SegmentsOk(segments) && Registered()
      requires Adding(segments, g0, Snapshot(), open, pending, k, id, AND, GroupKeys(k), 0, [])
      requires forall i :: 0 <= i < |k| ==>
                 var c := OrSegments(k[i], 0, false);
                 GroupsIn(segments, c.groups) && Above(open + {k}, Level(c.groups)) && Level(c.groups) <= 1
                 && c.groups == [k[i]] == GroupKeys(k)[i]
      modifies this`nodes, this`incomingEdgeCount, this`rank, this`setsToNodeId, this`conditionToNodeId
      ensures !ok ==> |nodes| > UINT32_MAX
      ensures ok ==> Registered() && Adding(segments, g0, Snapshot(), open, pending, k, id, AND, GroupKeys(k), |k|, children)
      ensures ok ==> |children| == |k|
      ensures Grew(segments, conditionIndex, old(nodes), nodes, GroupNodes(k))
      decreases 2, 0
    {
      hide *;
      ghost var parts := GroupKeys(k);
      ok, children := true, [];
      GrewNot(segments, conditionIndex, nodes);
      NoGroupNodes(k);
      for i := 0 to |k|
        invariant Registered() && Adding(segments, g0, Snapshot(), open, pending, k, id, AND, parts, i, children)
        invariant |children| == i && Grew(segments, conditionIndex, old(nodes), nodes, GroupNodes(k[..i]))
      {
        ghost var g := Snapshot();
        SnapshotFields();
        AddingFacts(segments, g0, g, open, pending, k, id, AND, parts, i, children);
        var child;
        ghost var childKey;
        child, childKey := AddMapping(OrSegments(k[i], 0, false), segments, conditionIndex, false, open + {k}, pending + multiset(children));
        SimplifiedSingle(k[i], childKey);
        GroupGrows(segments, conditionIndex, old(nodes), g.nodes, nodes, k, i);
        if child.None? {
          return false, children;
        }
        SnapshotFields();
        AddingNext(segments, g0, g, Snapshot(), open, pending, k, id, AND, parts, i, children, child.value);
        children := children + [child.value];
      }
      assert k[..|k|] == k;
    }

    /** Gives the node of a condition the nodes of its parts as children. */
    method Combine(id: nat, mode: ChildMode, children: seq<nat>, ghost k: Key, ghost parts: seq<Key>, ghost s: seq<nat>,
                   ghost segments: Segments, ghost g0: Graph, ghost open: set<Key>, ghost pending: multiset<nat>, ghost conditionIndex: nat)
      returns (ok: bool)
      requires id < |nodes| && nodes[id].conditionIndex == conditionIndex
      requires Adding(segments, g0, Snapshot(), open, pending, k, id, mode, parts, |parts|, children)
      requires GoodParts(parts, open + {k}) && k !in open && Registered()
      requires if mode == AND then parts == GroupKeys(k) && |parts| == |k|
               else mode == OR && parts == SegmentKeys(s) && |parts| == |s| && s != [] && |k| == 1 && forall x :: x in s <==> x in k[0]
      modifies this`nodes, this`incomingEdgeCount, this`rank
      ensures !ok ==> |nodes| > UINT32_MAX
      ensures ok ==> Building(segments, Snapshot(), open, pending) && Extends(g0, Snapshot()) && Registered()
      ensures ok ==> k in conditionToNodeId && conditionToNodeId[k] == id
      ensures Grew(segments, conditionIndex, old(nodes), nodes, |children|)
    {
      hide *;
      ghost var g := Snapshot();
      SnapshotFields();
      AddingFacts(segments, g0, g, open, pending, k, id, mode, parts, |parts|, children);
      ghost var bound := AddingEnds(segments, g0, g, open, pending, k, id, mode, parts, children);
      ok := AddChildrenToNode(id, mode, children, segments, open + {k}, k, bound, pending, conditionIndex);
      if ok {
        SnapshotFields();
        Combined(segments, g0, g, Snapshot(), open, pending, k, id, mode, parts, s, children);
      }
    }

    /** One edge more to a node that is there. Top level conditions set its condition index. */
    method BumpExisting(existing: nat, root: bool, conditionIndex: nat, ghost segments: Segments, ghost open: set<Key>, ghost pending: multiset<nat>)
      returns (id: nat)
      requires Building(segments, Snapshot(), open, pending) && existing < |nodes| == |incomingEdgeCount|
      modifies this`nodes, this`incomingEdgeCount
      ensures id == existing
      ensures Building(segments, Snapshot(), open, pending + multiset{id}) && Extends(old(Snapshot()), Snapshot())
      ensures nodes == if root then old(nodes)[id := old(nodes)[id].(conditionIndex := conditionIndex)] else old(nodes)
    {
      hide *;
      ghost var g := Snapshot();
      SnapshotFields();
      ExtendsItself(segments, g, open, pending);
      if root {
        Reindexed(segments, g, open, pending, existing, conditionIndex);
        nodes := nodes[existing := nodes[existing].(conditionIndex := conditionIndex)];
      }
      SnapshotFields();
      ghost var g1 := Snapshot();
      PromiseBuilding(segments, g1, open, pending, existing);
      incomingEdgeCount := incomingEdgeCount[existing := incomingEdgeCount[existing] + 1];
      SnapshotFields();
      ExtendsCompose(g, g1, Snapshot());
      return existing;
    }

    /** The leaf of a condition on one segment with one kind of set. */
    method AddPure(k: Key, segment: SubsetDefinition, conditionIndex: nat, ghost segments: Segments, ghost open: set<Key>, ghost pending: multiset<nat>)
      returns (id: Option<nat>)
      requires SegmentsOk(segments) && Building(segments, Snapshot(), open, pending) && Registered() && k !in conditionToNodeId
      requires KeyOk(segments, k) && Unitary(k) && SegmentOf(k) in segments && segments[SegmentOf(k)] == segment
      requires segment.NonEmptySets() == 1
      modifies this`nodes, this`incomingEdgeCount, this`rank, this`setsToNodeId, this`conditionToNodeId
      ensures id.None? ==> |nodes| > UINT32_MAX
      ensures id.Some? ==> Building(segments, Snapshot(), open, pending + multiset{id.value}) && Extends(old(Snapshot()), Snapshot())
      ensures id.Some? ==> Registered() && k in conditionToNodeId && conditionToNodeId[k] == id.value
      ensures Grew(segments, conditionIndex, old(nodes), nodes, 1)
    {
      hide *;
      ghost var g := Snapshot();
      SnapshotFields();
      PurePiece(segments, SegmentOf(k));
      id := AddSetsOnly(segment, conditionIndex, segments, open, pending);
      if id.None? {
        return;
      }
      SnapshotFields();
      ghost var g1 := Snapshot();
      IsPureWhen(segments, k);
      SharedLeafFacts(segments, g1, open, pending + multiset{id.value}, segment);
      RootsStay(k, id.value);
      RegisterPure(segments, g1, open, pending + multiset{id.value}, k, id.value);
      ExtendsRegistered(g, g1, k, id.value);
      conditionToNodeId := conditionToNodeId[k := id.value];
      RootsField();
      SnapshotFields();
    }

    /** The node of a condition, new or shared. The new edge to it is promised to the caller. */
    method AddMapping(condition: ActivationCondition, segments: Segments, conditionIndex: nat, root: bool,
                      ghost open: set<Key>, ghost pending: multiset<nat>)
      returns (id: Option<nat>, ghost k: Key)
      requires SegmentsOk(segments) && Building(segments, Snapshot(), open, pending) && Registered()
      requires GroupsIn(segments, condition.groups) && Above(open, Level(condition.groups))
      modifies this`nodes, this`incomingEdgeCount, this`rank, this`setsToNodeId, this`conditionToNodeId
      ensures id.None? ==> |nodes| > UINT32_MAX
      ensures id.Some? ==> Building(segments, Snapshot(), open, pending + multiset{id.value}) && Extends(old(Snapshot()), Snapshot())
      ensures id.Some? ==> Registered() && k in conditionToNodeId && conditionToNodeId[k] == id.value
      ensures Simplified(condition.groups, k)
      ensures GrewBy(segments, old(nodes), nodes, KeyNodes(k))
      ensures id.None? || !root ==> Grew(segments, conditionIndex, old(nodes), nodes, KeyNodes(k))
      ensures id.Some? && root ==>
        var shared := PureKey(segments, k) && k !in old(conditionToNodeId) && id.value < old(|nodes|);
        RootIndexed(old(nodes), nodes, id.value, conditionIndex, shared)
      decreases Level(condition.groups), 2
    {
      hide *;
      var normalized := CompositeCondition(condition.groups, 0, false);
      var key := normalized.groups;
      k := key;
      NormalizedFacts(segments, condition.groups, key, open);
      SnapshotFields();
      ghost var g := Snapshot();
      BuildingFacts(segments, g, open, pending);
      NormalKeyNodes(key);
      if key in conditionToNodeId {
        var existing := BumpExisting(conditionToNodeId[key], root, conditionIndex, segments, open, pending);
        id := Some(existing);
        UpdateIndexed(segments, conditionIndex, g.nodes, existing);
        GrewNot(segments, conditionIndex, g.nodes);
        BoundedAtMost(segments, g.nodes, nodes, 0, KeyNodes(key));
        if !root {
          GrewAtMost(segments, conditionIndex, g.nodes, nodes, 0, KeyNodes(key));
        }
        return;
      }
      if Unitary(key) {
        var segment := segments[SegmentOf(key)];
        if segment.NonEmptySets() == 1 {
          id := AddPure(key, segment, conditionIndex, segments, open, pending);
          GrewAtMost(segments, conditionIndex, g.nodes, nodes, 1, KeyNodes(key));
          GrewBounded(segments, conditionIndex, g.nodes, nodes, KeyNodes(key));
          if id.Some? {
            IsPureWhen(segments, key);
            NodeOf(segments, open, pending + multiset{id.value}, key);
            GrewIndexed(segments, conditionIndex, g.nodes, nodes, KeyNodes(key), id.value);
          }
          return;
        }
      }
      IsPureWhen(segments, key);
      id := OpenNode(key, conditionIndex, segments, open, pending);
      GrewAtMost(segments, conditionIndex, g.nodes, nodes, 1, KeyNodes(key));
      GrewBounded(segments, conditionIndex, g.nodes, nodes, KeyNodes(key));
      if id.None? {
        return;
      }
      SnapshotFields();
      ghost var n := nodes;
      var ok;
      if Unitary(key) {
        ok := AddParts(id.value, key, segments[SegmentOf(key)], conditionIndex, segments, g, open, pending + multiset{id.value});
      } else if |key| == 1 {
        ok := AddAlternatives(id.value, key, conditionIndex, segments, g, open, pending + multiset{id.value});
      } else {
        ok := AddGroups(id.value, key, conditionIndex, segments, g, open, pending + multiset{id.value});
      }
      GrewTwice(segments, conditionIndex, g.nodes, n, nodes, 1, KeyNodes(key) - 1);
      GrewBounded(segments, conditionIndex, g.nodes, nodes, KeyNodes(key));
      if !ok {
        id := None;
      } else {
        NodeOf(segments, open, pending + multiset{id.value}, key);
        GrewIndexed(segments, conditionIndex, g.nodes, nodes, KeyNodes(key), id.value);
      }
    }

    constructor (cost: CostModel)
      ensures nodes == [] && incomingEdgeCount == [] && rank == []
      ensures patchMappings == map[] && patchEncodings == map[] && conditionToNodeId == map[] && setsToNodeId == map[]
      ensures this.cost == cost
    {
      this.cost := cost;
      nodes, incomingEdgeCount, rank := [], [], [];
      patchMappings, patchEncodings, conditionToNodeId, setsToNodeId := map[], map[], map[], map[];
    }

    /** The conditions are the keys, each with its patches and its encoding, and each has a root that means it. */
    ghost predicate Compiled(segments: Segments, conditions: seq<ActivationCondition>, keys: seq<Key>)
      reads this
    {
      && IsCompiled(segments, conditions, keys, nodes, incomingEdgeCount, rank, conditionToNodeId, patchMappings, patchEncodings)
      && Registered() && DistinctRoots()
    }

    lemma NowCompiled(segments: Segments, conditions: seq<ActivationCondition>, keys: seq<Key>)
      requires Added(segments, conditions, keys, |conditions|, Snapshot(), patchMappings, patchEncodings)
      ensures Compiled(segments, conditions, keys)
    {
      hide Carries, Building, WellFormed, Means, Acyclic;
      AllBuilt(segments, Snapshot(), patchMappings);
    }

    /** Compiles all conditions into an empty graph. It fails when two conditions are equivalent, or the ids run out. */
    method AddConditions(conditions: seq<ActivationCondition>, segments: Segments) returns (ok: bool, ghost keys: seq<Key>)
      requires nodes == [] && incomingEdgeCount == [] && rank == [] && patchMappings == map[] && patchEncodings == map[]
      requires conditionToNodeId == map[] && setsToNodeId == map[]
      requires SegmentsOk(segments) && forall i :: 0 <= i < |conditions| ==> GroupsIn(segments, conditions[i].groups)
      modifies this
      ensures ok ==> Compiled(segments, conditions, keys)
      ensures ok ==> forall i, j :: 0 <= i < j < |conditions| ==> !SameFunction(conditions[i].groups, conditions[j].groups)
      ensures !ok ==> |nodes| > UINT32_MAX
                      || exists i, j :: 0 <= i < j < |conditions| && SameFunction(conditions[i].groups, conditions[j].groups)
      ensures |nodes| <= AllNodes(conditions)
      ensures ok ==> FromSegments(segments, nodes)
      ensures ok ==> |keys| == |conditions| && RootsIndexed(segments, keys, conditionToNodeId, nodes)
    {
      hide *;
      keys := [];
      NothingAdded(segments, conditions);
      EmptyRoots();
      RootsField();
      SnapshotFields();
      GrewNot(segments, 0, nodes);
      GrewBounded(segments, 0, nodes, nodes, 0);
      NoneIndexed(segments, conditionToNodeId, nodes);
      NoConditionNodes(conditions);
      for i := 0 to |conditions|
        invariant Added(segments, conditions, keys, i, Snapshot(), patchMappings, patchEncodings)
        invariant GrewBy(segments, [], nodes, AllNodes(conditions[..i]))
        invariant |keys| == i && RootsIndexed(segments, keys, conditionToNodeId, nodes)
      {
        ghost var g := Snapshot();
        AddedFacts(segments, conditions, keys, i);
        SnapshotFields();
        RootsField();
        ghost var k;
        var id;
        id, k := AddMapping(conditions[i], segments, i, true, {}, multiset{});
        ConditionGrows(segments, [], g.nodes, nodes, conditions, i, k);
        AllNodesMonotonic(conditions, i + 1);
        if id.None? {
          return false, keys;
        }
        SnapshotFields();
        RootsField();
        var normalized := CompositeCondition(conditions[i].groups, 0, false);
        SameNormalForm(conditions[i].groups, k, normalized.groups);
        if normalized.groups in patchMappings {
          KeyTaken(segments, conditions, keys, i, g, patchMappings, patchEncodings, k);
          return false, keys;
        }
        NotYetAdded(segments, conditions, keys, i, g, patchMappings, patchEncodings, k);
        NextRootIndexed(segments, keys, g, Snapshot(), multiset{} + multiset{id.value}, k, PureKey(segments, k) && k !in g.byCondition && id.value < |g.nodes|);
        AddedNext(segments, conditions, keys, i, g, Snapshot(), patchMappings, patchEncodings, k);
        patchMappings := patchMappings[normalized.groups := conditions[i].activated];
        patchEncodings := patchEncodings[normalized.groups := conditions[i].encoding];
        RootsField();
        SnapshotFields();
        keys := keys + [k];
      }
      AllDifferent(segments, conditions, keys, Snapshot(), patchMappings, patchEncodings);
      NowCompiled(segments, conditions, keys);
      assert conditions[..|conditions|] == conditions;
      FromNothing(segments, nodes, AllNodes(conditions));
      ok := true;
    }

    lemma NodeOf(segments: Segments, open: set<Key>, pending: multiset<nat>, k: Key)
      requires Building(segments, Snapshot(), open, pending) && k in conditionToNodeId
      ensures conditionToNodeId[k] < |nodes|
    {
    }

    lemma EmptyRoots()
      ensures RootsOf(map[], map[]) == {}
    {
    }

    lemma AddedFacts(segments: Segments, conditions: seq<ActivationCondition>, keys: seq<Key>, n: nat)
      requires Added(segments, conditions, keys, n, Snapshot(), patchMappings, patchEncodings)
      ensures Building(segments, Snapshot(), {}, multiset{}) && Registered()
      ensures forall i :: 0 <= i < |conditions| ==> Above({}, Level(conditions[i].groups))
    {
      hide Building;
    }

    method OptimizeCompiled(ghost segments: Segments, ghost conditions: seq<ActivationCondition>, ghost keys: seq<Key>) returns (ok: bool)
      requires Compiled(segments, conditions, keys)
      modifies this`nodes, this`incomingEdgeCount, this`rank
      ensures !ok ==> |nodes| > UINT32_MAX
      ensures ok ==> Compiled(segments, conditions, keys)
      ensures ok ==> NothingToGain(cost, nodes, incomingEdgeCount, rank)
      ensures ok ==> |old(nodes)| == |old(incomingEdgeCount)| && |nodes| == |incomingEdgeCount|
                     && LiveCost(cost, nodes, incomingEdgeCount) <= LiveCost(cost, old(nodes), old(incomingEdgeCount))
      ensures |old(nodes)| == |old(incomingEdgeCount)|
              && |nodes| <= |old(nodes)| + 3 * LiveCost(cost, old(nodes), old(incomingEdgeCount)) + 3
    {
      hide *;
      ghost var n, c, r := nodes, incomingEdgeCount, rank;
      CompiledFacts(segments, conditions, keys);
      CompiledIs(segments, conditions, keys);
      RootsField();
      ok := Optimize();
      if ok {
        NowOptimal();
        StillCompiled(segments, conditions, keys, n, c, r, conditionToNodeId, patchMappings, patchEncodings, nodes, incomingEdgeCount, rank);
        CompiledIs(segments, conditions, keys);
      }
    }

    lemma AsCompiled(segments: Segments, conditions: seq<ActivationCondition>, keys: seq<Key>) returns (c: Compilation)
      requires Compiled(segments, conditions, keys) && |nodes| <= AllNodes(conditions) && FromSegments(segments, nodes)
      ensures c.nodes == nodes && c.counts == incomingEdgeCount && |nodes| == |incomingEdgeCount|
      ensures IsFirstCompiled(segments, conditions, c)
    {
      hide IsCompiled, AllNodes, FromSegments;
      CompiledFacts(segments, conditions, keys);
      c := Compilation(keys, nodes, incomingEdgeCount, rank, conditionToNodeId, patchMappings, patchEncodings);
    }

    lemma NowOptimal()
      requires Acyclic(nodes, rank) && |nodes| == |incomingEdgeCount| && forall id: nat :: id < |nodes| ==> NoGain(id)
      ensures NothingToGain(cost, nodes, incomingEdgeCount, rank)
    {
      hide Acyclic, IsResultFor;
      forall id: nat, r | id < |nodes| && IsResultFor(cost, nodes, incomingEdgeCount, rank, id, r) ensures r.costDelta >= 0 {
        assert NoGain(id) && ResultFor(id, r);
      }
    }

    lemma CompiledIs(segments: Segments, conditions: seq<ActivationCondition>, keys: seq<Key>)
      ensures Compiled(segments, conditions, keys) <==>
              IsCompiled(segments, conditions, keys, nodes, incomingEdgeCount, rank, conditionToNodeId, patchMappings, patchEncodings)
              && Registered() && DistinctRoots()
    {
    }

    /** The condition of each root. */
    method ConditionsByNode() returns (ok: bool, conditionOf: map<nat, Key>)
      requires Registered() && DistinctRoots()
      ensures ok && IsConditionOf(conditionOf, conditionToNodeId, patchMappings.Keys)
    {
      conditionOf := map[];
      var rest := patchMappings.Keys;
      while rest != {}
        invariant rest <= patchMappings.Keys && IsConditionOf(conditionOf, conditionToNodeId, patchMappings.Keys - rest)
        decreases |rest|
      {
        var k :| k in rest;
        rest := rest - {k};
        if k in conditionToNodeId {
          if conditionToNodeId[k] in conditionOf {
            return false, conditionOf;
          }
          conditionOf := conditionOf[conditionToNodeId[k] := k];
        } else {
          return false, conditionOf;
        }
      }
      return true, conditionOf;
    }

    method ChildIndices(id: nat, index: map<nat, nat>) returns (ok: bool, indices: set<nat>)
      requires id < |nodes| && forall c :: c in nodes[id].children ==> c in index
      ensures ok && indices == set c | c in nodes[id].children && c in index :: index[c]
    {
      hide ToVector;
      var children := ToVector(nodes[id].children);
      assert forall c :: c in nodes[id].children <==> c in children;
      indices := {};
      for k := 0 to |children|
        invariant indices == IndicesOf(children[..k], index)
      {
        assert children[k] in children;
        if children[k] !in index {
          return false, indices;
        }
        MoreIndices(children, k, index);
        indices := indices + {index[children[k]]};
      }
      assert children[..|children|] == children;
      return true, indices;
    }

    /** The entry list: on a compiled graph no error is met, and the list represents the conditions. */
    method ToPatchMapEntries(defaultEncoding: PatchEncoding, ghost segments: Segments, ghost conditions: seq<ActivationCondition>, ghost keys: seq<Key>)
      returns (result: Result<seq<Entry>>, ghost at: seq<nat>, ghost layout: Layout)
      requires Compiled(segments, conditions, keys)
      ensures result.Ok? && Represents(segments, conditions, result.value, at)
      ensures WrittenFrom(result.value, layout) && IgnoredAre(result.value, defaultEncoding)
      ensures layout.nodes == nodes && layout.counts == incomingEdgeCount && layout.rank == rank
    {
      CompiledFacts(segments, conditions, keys);
      hide *;
      at, layout := [], Layout([], [], [], [], map[]);
      var ok, conditionOf := ConditionsByNode();
      if !ok {
        return Error, at, layout;
      }
      var sortResult := TopologicalSort();
      if sortResult.Error? {
        return Error, at, layout;
      }
      var sorted := sortResult.value;
      ghost var emitted: seq<nat> := [];
      var entries: seq<Entry>, index: map<nat, nat>, lastPatchId := [], map[], 0;
      NothingWritten(sorted, conditionOf, defaultEncoding);
      for i := |sorted| downto 0
        invariant Writing(sorted, i, conditionOf, entries, index, emitted, lastPatchId, defaultEncoding)
      {
        var id := sorted[i];
        NextToWrite(segments, conditions, keys, sorted, i, conditionOf, entries, index, emitted, lastPatchId, defaultEncoding);
        if incomingEdgeCount[id] > 0 {
          var okEntry, entry := MakeEntry(id, conditionOf, index, lastPatchId, defaultEncoding);
          if !okEntry {
            return Error, at, layout;
          }
          WriteOne(segments, conditions, keys, sorted, i, conditionOf, entries, index, emitted, lastPatchId, defaultEncoding, entry);
          if entry.patchIndices != [] {
            lastPatchId := entry.patchIndices[|entry.patchIndices| - 1];
          }
          index := index[id := |entries|];
          entries := entries + [entry];
          emitted := emitted + [id];
        }
      }
      at, layout := Finished(segments, conditions, keys, sorted, conditionOf, entries, index, emitted, lastPatchId, defaultEncoding);
      result := Ok(entries);
    }

    /** The entry of a node, whose children have theirs already. */
    method MakeEntry(id: nat, conditionOf: map<nat, Key>, index: map<nat, nat>, lastPatchId: nat, defaultEncoding: PatchEncoding)
      returns (ok: bool, entry: Entry)
      requires id < |nodes| && (forall c :: c in nodes[id].children ==> c in index) && HasPatches(conditionOf, id)
      ensures ok && IsEntryOf(id, conditionOf, index, lastPatchId, defaultEncoding, entry)
    {
      var okIndices, indices := ChildIndices(id, index);
      entry := Entry(nodes[id].sets, indices, nodes[id].mode == AND, true, [lastPatchId + 1], defaultEncoding);
      if !okIndices {
        return false, entry;
      }
      if id in conditionOf {
        entry := entry.(ignored := false, patchIndices := patchMappings[conditionOf[id]], encoding := patchEncodings[conditionOf[id]]);
      }
      ok := true;
    }

    ghost predicate HasPatches(conditionOf: map<nat, Key>, id: nat)
      reads this
    {
      id in conditionOf ==> conditionOf[id] in patchMappings && conditionOf[id] in patchEncodings
    }

    /** The sets, mode and children of the node; with a condition its patches and encoding, without one it is ignored. */
    ghost predicate IsEntryOf(id: nat, conditionOf: map<nat, Key>, index: map<nat, nat>, lastPatchId: nat, defaultEncoding: PatchEncoding, entry: Entry)
      requires id < |nodes|
      reads this
    {
      && entry.coverage == nodes[id].sets && entry.conjunctive == (nodes[id].mode == AND)
      && entry.childIndices == (set c | c in nodes[id].children && c in index :: index[c])
      && if id in conditionOf then
           var k := conditionOf[id];
           && !entry.ignored && k in patchMappings && entry.patchIndices == patchMappings[k]
           && k in patchEncodings && entry.encoding == patchEncodings[k]
         else entry.ignored && entry.patchIndices == [lastPatchId + 1] && entry.encoding == defaultEncoding
    }

    ghost predicate Writing(sorted: seq<nat>, i: nat, conditionOf: map<nat, Key>, entries: seq<Entry>, index: map<nat, nat>,
                            emitted: seq<nat>, lastPatchId: nat, defaultEncoding: PatchEncoding)
      reads this
    {
      && Emitting(sorted, i, conditionOf, entries, index, emitted, lastPatchId) && ByPriority(nodes, sorted)
      && EmittingInOrder(sorted, i, entries, emitted, defaultEncoding)
    }

    lemma NothingWritten(sorted: seq<nat>, conditionOf: map<nat, Key>, defaultEncoding: PatchEncoding)
      requires Acyclic(nodes, rank) && Topological(nodes, sorted) && ByPriority(nodes, sorted) && |nodes| == |incomingEdgeCount|
      requires IsConditionOf(conditionOf, conditionToNodeId, patchMappings.Keys)
      ensures Writing(sorted, |sorted|, conditionOf, [], map[], [], 0, defaultEncoding)
    {
      hide Acyclic, Topological, ByPriority, IsConditionOf;
      NothingEmitted(nodes, rank, incomingEdgeCount, sorted, conditionOf, patchMappings, patchEncodings);
      NothingInOrder(sorted, defaultEncoding);
    }

    lemma NextToWrite(segments: Segments, conditions: seq<ActivationCondition>, keys: seq<Key>, sorted: seq<nat>, i: nat,
                      conditionOf: map<nat, Key>, entries: seq<Entry>, index: map<nat, nat>, emitted: seq<nat>, lastPatchId: nat,
                      defaultEncoding: PatchEncoding)
      requires Compiled(segments, conditions, keys) && i < |sorted|
      requires Writing(sorted, i + 1, conditionOf, entries, index, emitted, lastPatchId, defaultEncoding)
      ensures sorted[i] < |nodes| == |incomingEdgeCount| && HasPatches(conditionOf, sorted[i])
      ensures forall c :: c in nodes[sorted[i]].children ==> c in index
      ensures incomingEdgeCount[sorted[i]] == 0 ==> Writing(sorted, i, conditionOf, entries, index, emitted, lastPatchId, defaultEncoding)
    {
      hide Compiled, Emitting, EmittingInOrder, ByPriority;
      NextToEmit(segments, conditions, keys, sorted, i, conditionOf, entries, index, emitted, lastPatchId);
      OrderNext(sorted, i, entries, emitted, defaultEncoding, conditionOf, index, lastPatchId);
    }

    lemma WriteOne(segments: Segments, conditions: seq<ActivationCondition>, keys: seq<Key>, sorted: seq<nat>, i: nat,
                   conditionOf: map<nat, Key>, entries: seq<Entry>, index: map<nat, nat>, emitted: seq<nat>, lastPatchId: nat,
                   defaultEncoding: PatchEncoding, entry: Entry)
      requires Compiled(segments, conditions, keys) && i < |sorted|
      requires Writing(sorted, i + 1, conditionOf, entries, index, emitted, lastPatchId, defaultEncoding)
      requires sorted[i] < |nodes| == |incomingEdgeCount| && incomingEdgeCount[sorted[i]] > 0
      requires IsEntryOf(sorted[i], conditionOf, index, lastPatchId, defaultEncoding, entry)
      ensures Writing(sorted, i, conditionOf, entries + [entry], index[sorted[i] := |entries|], emitted + [sorted[i]],
                      if entry.patchIndices != [] then entry.patchIndices[|entry.patchIndices| - 1] else lastPatchId, defaultEncoding)
    {
      hide Compiled, Emitting, EmittingInOrder, ByPriority, IgnoredAre;
      OrderNext(sorted, i, entries, emitted, defaultEncoding, conditionOf, index, lastPatchId);
      EmitOne(segments, conditions, keys, sorted, i, conditionOf, entries, index, emitted, lastPatchId, entry);
      IgnoredNext(entries, defaultEncoding, entry);
      LiveInRange(sorted, i, conditionOf, entries, index, emitted, lastPatchId);
      NowEmitted(sorted, i, entries + [entry], emitted + [sorted[i]], defaultEncoding);
    }

    lemma LiveInRange(sorted: seq<nat>, i: nat, conditionOf: map<nat, Key>, entries: seq<Entry>, index: map<nat, nat>, emitted: seq<nat>,
                      lastPatchId: nat)
      requires Emitting(sorted, i + 1, conditionOf, entries, index, emitted, lastPatchId)
      ensures forall j :: 0 <= j < |sorted| ==> sorted[j] < |incomingEdgeCount|
    {
      hide Acyclic, EmittedFrom, Emitted, Faithful, Labelled, IsConditionOf, LastPatchId;
    }

    /** The live nodes have been written in the order of the sorted list, last ones first. */
    ghost predicate EmittingInOrder(sorted: seq<nat>, i: nat, entries: seq<Entry>, emitted: seq<nat>, defaultEncoding: PatchEncoding)
      reads this
    {
      && i <= |sorted| && (forall j :: 0 <= j < |sorted| ==> sorted[j] < |incomingEdgeCount|)
      && emitted == LiveFrom(sorted, incomingEdgeCount, i) && IgnoredAre(entries, defaultEncoding)
    }

    lemma NothingInOrder(sorted: seq<nat>, defaultEncoding: PatchEncoding)
      requires Topological(nodes, sorted) && |nodes| == |incomingEdgeCount|
      ensures EmittingInOrder(sorted, |sorted|, [], [], defaultEncoding)
    {
    }

    lemma OrderNext(sorted: seq<nat>, i: nat, entries: seq<Entry>, emitted: seq<nat>, defaultEncoding: PatchEncoding,
                    conditionOf: map<nat, Key>, index: map<nat, nat>, lastPatchId: nat)
      requires i < |sorted| && EmittingInOrder(sorted, i + 1, entries, emitted, defaultEncoding)
      requires Emitting(sorted, i + 1, conditionOf, entries, index, emitted, lastPatchId)
      ensures IgnoredAre(entries, defaultEncoding) && lastPatchId == LastPatchId(entries)
      ensures sorted[i] < |incomingEdgeCount|
      ensures if incomingEdgeCount[sorted[i]] == 0 then EmittingInOrder(sorted, i, entries, emitted, defaultEncoding)
              else emitted + [sorted[i]] == LiveFrom(sorted, incomingEdgeCount, i)
    {
      hide Acyclic, Topological, EmittedFrom, Emitted, Faithful, Labelled, IsConditionOf, IgnoredAre, LastPatchId;
    }

    lemma NowEmitted(sorted: seq<nat>, i: nat, entries: seq<Entry>, emitted: seq<nat>, defaultEncoding: PatchEncoding)
      requires i < |sorted| && forall j :: 0 <= j < |sorted| ==> sorted[j] < |incomingEdgeCount|
      requires emitted == LiveFrom(sorted, incomingEdgeCount, i) && IgnoredAre(entries, defaultEncoding)
      ensures EmittingInOrder(sorted, i, entries, emitted, defaultEncoding)
    {
      hide IgnoredAre;
    }

    lemma NowWritten(sorted: seq<nat>, entries: seq<Entry>, index: map<nat, nat>, emitted: seq<nat>, defaultEncoding: PatchEncoding,
                     conditionOf: map<nat, Key>, lastPatchId: nat)
      requires Emitting(sorted, 0, conditionOf, entries, index, emitted, lastPatchId) && ByPriority(nodes, sorted)
      requires EmittingInOrder(sorted, 0, entries, emitted, defaultEncoding)
      ensures WrittenFrom(entries, Layout(nodes, incomingEdgeCount, rank, sorted, index)) && IgnoredAre(entries, defaultEncoding)
    {
      hide Acyclic, Topological, EmittedFrom, Emitted, Faithful, Labelled, IsConditionOf, IgnoredAre, LastPatchId, ByPriority;
    }

    /** The live nodes from position i of the sorted list on have been written. */
    ghost predicate Emitting(sorted: seq<nat>, i: nat, conditionOf: map<nat, Key>, entries: seq<Entry>, index: map<nat, nat>,
                             emitted: seq<nat>, lastPatchId: nat)
      reads this
    {
      && Acyclic(nodes, rank) && Topological(nodes, sorted) && i <= |sorted| && |nodes| == |incomingEdgeCount|
      && EmittedFrom(sorted, incomingEdgeCount, i, index)
      && Emitted(nodes, index, entries, emitted) && Faithful(nodes, rank, entries, emitted)
      && Labelled(entries, emitted, conditionOf, patchMappings, patchEncodings) && lastPatchId == LastPatchId(entries)
      && IsConditionOf(conditionOf, conditionToNodeId, patchMappings.Keys)
    }

    lemma CompiledFacts(segments: Segments, conditions: seq<ActivationCondition>, keys: seq<Key>)
      requires Compiled(segments, conditions, keys)
      ensures Consistent(nodes, incomingEdgeCount, rank, Roots(), multiset{}) && DistinctRoots() && Registered()
      ensures WellFormed(nodes, incomingEdgeCount, rank, Roots()) && Acyclic(nodes, rank) && |nodes| == |incomingEdgeCount|
      ensures forall k :: k in patchMappings ==> k in patchEncodings
    {
      hide Consistent, Means, Acyclic, LeavesHaveSets;
      ConsistentIsAcyclic(nodes, incomingEdgeCount, rank, Roots());
      forall k | k in patchMappings ensures k in patchEncodings {
        var i :| 0 <= i < |keys| && keys[i] == k;
        assert Carries(conditions[i], keys[i], patchMappings, patchEncodings);
      }
    }

    lemma NextToEmit(segments: Segments, conditions: seq<ActivationCondition>, keys: seq<Key>, sorted: seq<nat>, i: nat,
                     conditionOf: map<nat, Key>, entries: seq<Entry>, index: map<nat, nat>, emitted: seq<nat>, lastPatchId: nat)
      requires Compiled(segments, conditions, keys) && i < |sorted|
      requires Emitting(sorted, i + 1, conditionOf, entries, index, emitted, lastPatchId)
      ensures sorted[i] < |nodes| == |incomingEdgeCount| && sorted[i] !in index
      ensures forall c :: c in nodes[sorted[i]].children ==> c in index && c != sorted[i]
      ensures incomingEdgeCount[sorted[i]] == 0 ==> Emitting(sorted, i, conditionOf, entries, index, emitted, lastPatchId)
      ensures sorted[i] in conditionOf ==> conditionOf[sorted[i]] in patchMappings && conditionOf[sorted[i]] in patchEncodings
    {
      CompiledFacts(segments, conditions, keys);
      hide Compiled, Consistent, Acyclic, Emitted, Faithful, Labelled, WellFormed;
      ReadyToEmit(nodes, incomingEdgeCount, rank, Roots(), sorted, i, index);
      EmittedBefore(sorted, incomingEdgeCount, i, index, nodes, 0);
    }

    lemma EmitOne(segments: Segments, conditions: seq<ActivationCondition>, keys: seq<Key>, sorted: seq<nat>, i: nat,
                  conditionOf: map<nat, Key>, entries: seq<Entry>, index: map<nat, nat>, emitted: seq<nat>, lastPatchId: nat, entry: Entry)
      requires Compiled(segments, conditions, keys) && i < |sorted|
      requires Emitting(sorted, i + 1, conditionOf, entries, index, emitted, lastPatchId)
      requires sorted[i] < |nodes| == |incomingEdgeCount| && incomingEdgeCount[sorted[i]] > 0
      requires entry.coverage == nodes[sorted[i]].sets && entry.conjunctive == (nodes[sorted[i]].mode == AND)
      requires entry.childIndices == set c | c in nodes[sorted[i]].children && c in index :: index[c]
      requires if sorted[i] in conditionOf then
                 var k := conditionOf[sorted[i]];
                 && !entry.ignored && k in patchMappings && entry.patchIndices == patchMappings[k]
                 && k in patchEncodings && entry.encoding == patchEncodings[k]
               else entry.ignored && entry.patchIndices == [lastPatchId + 1]
      ensures Emitting(sorted, i, conditionOf, entries + [entry], index[sorted[i] := |entries|], emitted + [sorted[i]],
                       if entry.patchIndices != [] then entry.patchIndices[|entry.patchIndices| - 1] else lastPatchId)
    {
      hide Compiled, Acyclic, Emitted, Faithful, Labelled, EmittedFrom, LastPatchId, IsConditionOf, Topological;
      NextToEmit(segments, conditions, keys, sorted, i, conditionOf, entries, index, emitted, lastPatchId);
      EmittedBefore(sorted, incomingEdgeCount, i, index, nodes, |entries|);
      EmitNode(nodes, index, entries, emitted, sorted[i], entry);
      EmitFaithful(nodes, rank, index, entries, emitted, sorted[i], entry);
      LabelNext(entries, emitted, conditionOf, patchMappings, patchEncodings, sorted[i], entry);
    }

    lemma Finished(segments: Segments, conditions: seq<ActivationCondition>, keys: seq<Key>, sorted: seq<nat>,
                   conditionOf: map<nat, Key>, entries: seq<Entry>, index: map<nat, nat>, emitted: seq<nat>, lastPatchId: nat,
                   defaultEncoding: PatchEncoding)
      returns (at: seq<nat>, layout: Layout)
      requires Compiled(segments, conditions, keys)
      requires Writing(sorted, 0, conditionOf, entries, index, emitted, lastPatchId, defaultEncoding)
      ensures Represents(segments, conditions, entries, at)
      ensures WrittenFrom(entries, layout) && IgnoredAre(entries, defaultEncoding)
      ensures layout.nodes == nodes && layout.counts == incomingEdgeCount && layout.rank == rank
    {
      hide Acyclic, Emitted, Faithful, Labelled, EmittedFrom, LastPatchId, IsConditionOf, WellFormed, Means, Carries, Topological, Represents,
        ByPriority, EmittingInOrder, IgnoredAre, WrittenFrom;
      at := ListRepresents(segments, conditions, keys, nodes, incomingEdgeCount, rank, conditionToNodeId, patchMappings, patchEncodings,
                           conditionOf, sorted, index, entries, emitted);
      layout := Layout(nodes, incomingEdgeCount, rank, sorted, index);
      NowWritten(sorted, entries, index, emitted, defaultEncoding, conditionOf, lastPatchId);
    }

    ghost function ConditionIndexOf(id: nat): nat
      reads this`nodes
    {
      if id < |nodes| then nodes[id].conditionIndex else 0
    }
  }

  /** The encoding that most conditions have; of several, the one that gets to their number first. */
  ghost predicate IsMostFrequent(conditions: seq<ActivationCondition>, encoding: PatchEncoding) {
    && (conditions == [] ==> encoding == GLYPH_KEYED)
    && (forall e :: CountOf(conditions, e) <= CountOf(conditions, encoding))
    && (conditions != [] ==> exists i :: 0 <= i <= |conditions| && IsFirst(conditions, i, encoding))
  }

  /** Before condition i no encoding but this one has got to the number that it ends with. */
  ghost predicate IsFirst(conditions: seq<ActivationCondition>, i: nat, encoding: PatchEncoding)
    requires i <= |conditions|
  {
    && CountOf(conditions[..i], encoding) == CountOf(conditions, encoding)
    && forall e :: e != encoding ==> CountOf(conditions[..i], e) < CountOf(conditions, encoding)
  }

  method MostFrequentEncoding(conditions: seq<ActivationCondition>) returns (encoding: PatchEncoding)
    ensures IsMostFrequent(conditions, encoding)
  {
    encoding := GLYPH_KEYED;
    ghost var first := 0;
    var maxCount: nat, counts: map<PatchEncoding, nat> := 0, map[];
    for i := 0 to |conditions|
      invariant forall e :: (if e in counts then counts[e] else 0) == CountOf(conditions[..i], e)
      invariant maxCount == CountOf(conditions[..i], encoding) && forall e :: CountOf(conditions[..i], e) <= maxCount
      invariant i == 0 ==> encoding == GLYPH_KEYED
      invariant first <= i && CountOf(conditions[..first], encoding) == maxCount
      invariant i > 0 ==> forall e :: e != encoding ==> CountOf(conditions[..first], e) < maxCount
    {
      assert conditions[..i + 1][..i] == conditions[..i];
      var e := conditions[i].encoding;
      counts := counts[e := (if e in counts then counts[e] else 0) + 1];
      if counts[e] > maxCount {
        maxCount, encoding, first := counts[e], e, i + 1;
      }
    }
    assert conditions[..|conditions|] == conditions;
    assert conditions != [] ==> IsFirst(conditions, first, encoding);
  }

  ghost function CountOf(conditions: seq<ActivationCondition>, e: PatchEncoding): nat {
    if conditions == [] then 0
    else
      var n := |conditions| - 1;
      CountOf(conditions[..n], e) + (if conditions[n].encoding == e then 1 else 0)
  }

  ghost predicate AllDistinct(conditions: seq<ActivationCondition>) {
    forall i, j :: 0 <= i < j < |conditions| ==> !SameFunction(conditions[i].groups, conditions[j].groups)
  }

  /** Conditions to entries, all the way: one entry for each condition that is not ignored carries its patches and its
      encoding, and matches an input exactly when the condition holds for the segments that the input intersects. The list
      is written from a graph that no subsumption makes cheaper, and costs no more than the graph as first compiled.
      Equivalent conditions are an error; it is the only one, as long as all nodes fit into 32 bit ids. */
  method ConditionsToEntries(conditions: seq<ActivationCondition>, segments: Segments, cost: CostModel)
    returns (result: Result<seq<Entry>>, ghost at: seq<nat>, ghost layout: Layout, ghost first: Compilation)
    requires SegmentsOk(segments) && forall i :: 0 <= i < |conditions| ==> GroupsIn(segments, conditions[i].groups)
    ensures conditions == [] ==> result == Ok([])
    ensures result.Ok? && conditions != [] ==> IsOptimized(cost, segments, conditions, result.value, layout, first)
    ensures result.Ok? ==> Represents(segments, conditions, result.value, at)
    ensures result.Ok? ==> AllDistinct(conditions)
    ensures forall most :: Fits(cost, segments, conditions, most) ==> (result.Ok? <==> AllDistinct(conditions))
  {
    at, layout, first := [], Layout([], [], [], [], map[]), Compilation([], [], [], [], map[], map[], map[]);
    var defaultEncoding := MostFrequentEncoding(conditions);
    if conditions == [] {
      return Ok([]), at, layout, first;
    }
    var graph := new EntryGraph(cost);
    hide *;
    var created;
    ghost var keys;
    created, keys := graph.AddConditions(conditions, segments);
    DistinctOrNot(conditions);
    forall most | Fits(cost, segments, conditions, most) ensures AllNodes(conditions) <= UINT32_MAX {
      NodesFit(cost, segments, conditions, most);
    }
    if !created {
      return Error, at, layout, first;
    }
    first := graph.AsCompiled(segments, conditions, keys);
    graph.CompiledFacts(segments, conditions, keys);
    forall most | Fits(cost, segments, conditions, most)
      ensures |graph.nodes| + 3 * LiveCost(cost, graph.nodes, graph.incomingEdgeCount) + 3 <= UINT32_MAX
    {
      FewChildren(graph.nodes, graph.incomingEdgeCount, graph.rank, graph.Roots());
      EnoughIds(cost, segments, conditions, most, graph.nodes, graph.incomingEdgeCount);
    }
    var optimized := graph.OptimizeCompiled(segments, conditions, keys);
    if !optimized {
      return Error, at, layout, first;
    }
    result, at, layout := graph.ToPatchMapEntries(defaultEncoding, segments, conditions, keys);
    NowOptimized(cost, segments, conditions, result.value, layout, first, defaultEncoding);
  }

  /** A graph as it was first compiled. */
  datatype Compilation = Compilation(
    keys: seq<Key>, nodes: seq<EntryNode>, counts: seq<nat>, rank: seq<nat>, byCondition: map<Key, nat>,
    patchMappings: map<Key, seq<nat>>, patchEncodings: map<Key, PatchEncoding>)

  ghost predicate IsFirstCompiled(segments: Segments, conditions: seq<ActivationCondition>, c: Compilation) {
    && IsCompiled(segments, conditions, c.keys, c.nodes, c.counts, c.rank, c.byCondition, c.patchMappings, c.patchEncodings)
    && |c.nodes| == |c.counts| && |c.nodes| <= AllNodes(conditions) && FromSegments(segments, c.nodes)
  }

  /** The list is written from a graph into which no subsumption gains anything, and which costs no more than the graph that
      was first compiled; the entries without a condition have the most frequent encoding. */
  ghost predicate IsOptimized(cost: CostModel, segments: Segments, conditions: seq<ActivationCondition>, entries: seq<Entry>,
                              l: Layout, c: Compilation)
  {
    && WrittenFrom(entries, l) && NothingToGain(cost, l.nodes, l.counts, l.rank)
    && IsFirstCompiled(segments, conditions, c) && ListCost(cost, entries) <= LiveCost(cost, c.nodes, c.counts)
    && exists encoding :: IsMostFrequent(conditions, encoding) && IgnoredAre(entries, encoding)
  }

  lemma NowOptimized(cost: CostModel, segments: Segments, conditions: seq<ActivationCondition>, entries: seq<Entry>,
                     l: Layout, c: Compilation, encoding: PatchEncoding)
    requires WrittenFrom(entries, l) && NothingToGain(cost, l.nodes, l.counts, l.rank)
    requires IsFirstCompiled(segments, conditions, c)
    requires |l.nodes| == |l.counts| && |c.nodes| == |c.counts| && LiveCost(cost, l.nodes, l.counts) <= LiveCost(cost, c.nodes, c.counts)
    requires IsMostFrequent(conditions, encoding) && IgnoredAre(entries, encoding)
    ensures IsOptimized(cost, segments, conditions, entries, l, c)
  {
    hide WrittenFrom, NothingToGain, IsFirstCompiled, ListCost, LiveCost, IsMostFrequent, IgnoredAre;
    WrittenCost(cost, entries, l);
    assert |c.nodes| == |c.counts|;
  }

  lemma DistinctOrNot(conditions: seq<ActivationCondition>)
    ensures AllDistinct(conditions) <==>
            !exists i, j :: 0 <= i < j < |conditions| && SameFunction(conditions[i].groups, conditions[j].groups)
  {
    hide SameFunction;
  }

  lemma FewChildren(nodes: seq<EntryNode>, counts: seq<nat>, rank: seq<nat>, roots: set<nat>)
    requires WellFormed(nodes, counts, rank, roots)
    ensures forall x :: 0 <= x < |nodes| ==> |nodes[x].children| <= MAX_CHILDREN
  {
  }
}
