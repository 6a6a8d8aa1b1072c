/** How many nodes compiling takes, and what they can cost: bounds that can be computed from the conditions beforehand. */
module EntryGrowth {
  import opened IntSets
  import opened SegmentGroups
  import opened ActivationConditions
  import opened SubsetDefinitions
  import opened EntryNodes
  import opened EntryGraphs
  import opened EntrySubsumption
  import opened EntryBuilding
  import opened EntryLinking
  import opened EntryCompilation

  /** Node ids have 32 bits. */
  const UINT32_MAX: nat := 0xFFFF_FFFF

  // ---------- where local sets come from ----------

  /** Nothing, or one kind of set of one segment. */
  ghost predicate Piece(segments: Segments, sets: SubsetDefinition) {
    sets == NOTHING || exists x :: x in segments && sets in Parts(segments[x])
  }

  ghost predicate FromSegments(segments: Segments, nodes: seq<EntryNode>) {
    forall i :: 0 <= i < |nodes| ==> Piece(segments, nodes[i].sets)
  }

  lemma PurePiece(segments: Segments, x: nat)
    requires x in segments && segments[x].NonEmptySets() == 1
    ensures Piece(segments, segments[x])
  {
    var d := segments[x];
    assert Parts(d) == [d];
    assert d in Parts(d);
  }

  lemma PartPiece(segments: Segments, x: nat, n: nat)
    requires x in segments && n < |Parts(segments[x])|
    ensures Piece(segments, Parts(segments[x])[n])
  {
    assert Parts(segments[x])[n] in Parts(segments[x]);
  }

  lemma NothingPiece(segments: Segments)
    ensures Piece(segments, NOTHING)
  {
  }

  // ---------- growing ----------

  /** At most `more` nodes were added, and all local sets still come from the segments. */
  ghost predicate GrewBy(segments: Segments, n: seq<EntryNode>, n': seq<EntryNode>, more: nat) {
    |n'| <= |n| + more && (FromSegments(segments, n) ==> FromSegments(segments, n'))
  }

  /** The nodes that were added have the index of the condition that they were made for, the others keep theirs. */
  ghost predicate Indexed(n: seq<EntryNode>, n': seq<EntryNode>, index: nat) {
    && |n| <= |n'|
    && forall x :: 0 <= x < |n'| ==> n'[x].conditionIndex == if x < |n| then n[x].conditionIndex else index
  }

  ghost predicate Grew(segments: Segments, index: nat, n: seq<EntryNode>, n': seq<EntryNode>, more: nat) {
    GrewBy(segments, n, n', more) && Indexed(n, n', index)
  }

  lemma GrewNot(segments: Segments, index: nat, n: seq<EntryNode>)
    ensures Grew(segments, index, n, n, 0)
  {
  }

  lemma GrewTwice(segments: Segments, index: nat, a: seq<EntryNode>, b: seq<EntryNode>, c: seq<EntryNode>, x: nat, y: nat)
    requires Grew(segments, index, a, b, x) && Grew(segments, index, b, c, y)
    ensures Grew(segments, index, a, c, x + y)
  {
    hide FromSegments;
  }

  lemma GrewAtMost(segments: Segments, index: nat, a: seq<EntryNode>, b: seq<EntryNode>, x: nat, y: nat)
    requires Grew(segments, index, a, b, x) && x <= y
    ensures Grew(segments, index, a, b, y)
  {
  }

  /** A new node. */
  lemma GrewByOne(segments: Segments, index: nat, n: seq<EntryNode>, node: EntryNode)
    requires Piece(segments, node.sets) && node.conditionIndex == index
    ensures Grew(segments, index, n, n + [node], 1)
  {
    hide Piece;
  }

  /** A node that keeps its sets. */
  lemma BoundedByUpdate(segments: Segments, n: seq<EntryNode>, id: nat, node: EntryNode)
    requires id < |n| && node.sets == n[id].sets
    ensures GrewBy(segments, n, n[id := node], 0)
  {
    hide Piece;
  }

  lemma GrewNotByUpdate(segments: Segments, index: nat, n: seq<EntryNode>, id: nat, node: EntryNode)
    requires id < |n| && node.sets == n[id].sets && node.conditionIndex == n[id].conditionIndex
    ensures Grew(segments, index, n, n[id := node], 0)
  {
    BoundedByUpdate(segments, n, id, node);
  }

  lemma GrewNotByLinks(segments: Segments, index: nat, n: seq<EntryNode>, id: nat, children: seq<nat>)
    requires id < |n|
    ensures Grew(segments, index, n, Linked(n, id, children), 0)
  {
    GrewNotByUpdate(segments, index, n, id, n[id].(children := n[id].children + ToSet(children)));
  }

  lemma IndexStays(segments: Segments, index: nat, n: seq<EntryNode>, n': seq<EntryNode>, more: nat, id: nat)
    requires Grew(segments, index, n, n', more) && id < |n|
    ensures id < |n'| && n'[id].conditionIndex == n[id].conditionIndex
  {
  }

  lemma NewIndex(segments: Segments, index: nat, n: seq<EntryNode>, n': seq<EntryNode>, more: nat, id: nat)
    requires Grew(segments, index, n, n', more) && |n| <= id < |n'|
    ensures n'[id].conditionIndex == index
  {
  }

  // ---------- the index of a top level condition ----------

  /** The node of a top level condition has its index, also when it was there before; a leaf that is shared keeps its own. */
  ghost predicate RootIndexed(n: seq<EntryNode>, n': seq<EntryNode>, id: nat, index: nat, shared: bool) {
    && |n| <= |n'| && id < |n'| && (shared ==> id < |n|)
    && (forall x :: 0 <= x < |n'| && x != id ==> n'[x].conditionIndex == if x < |n| then n[x].conditionIndex else index)
    && n'[id].conditionIndex == if shared then n[id].conditionIndex else index
  }

  lemma GrewIndexed(segments: Segments, index: nat, n: seq<EntryNode>, n': seq<EntryNode>, more: nat, id: nat)
    requires Grew(segments, index, n, n', more) && id < |n'|
    ensures GrewBy(segments, n, n', more) && RootIndexed(n, n', id, index, id < |n|)
  {
  }

  lemma UpdateIndexed(segments: Segments, index: nat, n: seq<EntryNode>, id: nat)
    requires id < |n|
    ensures var n' := n[id := n[id].(conditionIndex := index)];
            GrewBy(segments, n, n', 0) && RootIndexed(n, n', id, index, false)
  {
    BoundedByUpdate(segments, n, id, n[id].(conditionIndex := index));
  }

  lemma GrewBounded(segments: Segments, index: nat, n: seq<EntryNode>, n': seq<EntryNode>, more: nat)
    requires Grew(segments, index, n, n', more)
    ensures GrewBy(segments, n, n', more)
  {
  }

  lemma BoundedAtMost(segments: Segments, n: seq<EntryNode>, n': seq<EntryNode>, x: nat, y: nat)
    requires GrewBy(segments, n, n', x) && x <= y
    ensures GrewBy(segments, n, n', y)
  {
  }

  /** The roots of the conditions have their indices, but for leaves that were made for earlier conditions. */
  ghost predicate RootsIndexed(segments: Segments, keys: seq<Key>, byCondition: map<Key, nat>, nodes: seq<EntryNode>) {
    && (forall x :: 0 <= x < |nodes| ==> nodes[x].conditionIndex < |keys|)
    && forall i :: 0 <= i < |keys| ==>
         && keys[i] in byCondition && byCondition[keys[i]] < |nodes|
         && var index := nodes[byCondition[keys[i]]].conditionIndex;
            index == i || (index < i && PureKey(segments, keys[i]))
  }

  lemma NoneIndexed(segments: Segments, byCondition: map<Key, nat>, nodes: seq<EntryNode>)
    requires nodes == []
    ensures RootsIndexed(segments, [], byCondition, nodes)
  {
  }

  lemma NextRootIndexed(segments: Segments, keys: seq<Key>, g: Graph, g': Graph, pending: multiset<nat>, k: Key, shared: bool)
    requires Building(segments, g', {}, pending) && Extends(g, g') && k !in keys && k in g'.byCondition
    requires RootsIndexed(segments, keys, g.byCondition, g.nodes) && (shared ==> PureKey(segments, k))
    requires RootIndexed(g.nodes, g'.nodes, g'.byCondition[k], |keys|, shared)
    ensures RootsIndexed(segments, keys + [k], g'.byCondition, g'.nodes)
  {
    hide Core, Means, SharedLeavesOk;
    forall i | 0 <= i < |keys| ensures keys[i] in g'.byCondition && g'.byCondition[keys[i]] == g.byCondition[keys[i]] != g'.byCondition[k] {
      assert keys[i] in keys;
    }
  }

  lemma FewLinks(links: nat, children: nat)
    requires CHUNK * links <= children
    ensures links <= children
  {
  }

  /** One link of a chain: children for one node, and a new node below it. */
  lemma GrewByLink(segments: Segments, index: nat, n: seq<EntryNode>, cur: nat, chunk: seq<nat>, node: EntryNode, id: nat)
    requires cur < |n| && node.sets == NOTHING && node.conditionIndex == index
    ensures var n1 := Linked(n, cur, chunk) + [node];
            Grew(segments, index, n, n1[cur := n1[cur].(children := n1[cur].children + {id})], 1)
  {
    var l := Linked(n, cur, chunk);
    var n1 := l + [node];
    GrewNotByLinks(segments, index, n, cur, chunk);
    GrewByOne(segments, index, l, node);
    GrewNotByUpdate(segments, index, n1, cur, n1[cur].(children := n1[cur].children + {id}));
  }

  lemma FromNothing(segments: Segments, n: seq<EntryNode>, more: nat)
    requires GrewBy(segments, [], n, more)
    ensures |n| <= more && FromSegments(segments, n)
  {
  }

  // ---------- how many nodes a condition takes ----------

  /** One node for each group, and for each of its segments one with up to three leaves, and up to one link. */
  function GroupNodes(groups: seq<Group>): nat {
    if groups == [] then 0 else GroupNodes(groups[..|groups| - 1]) + 1 + 5 * |groups[|groups| - 1]|
  }

  /** What a condition in normal form takes. */
  function KeyNodes(k: Key): nat {
    if |k| == 1 then (if |k[0]| <= 1 then 4 else 1 + 5 * |k[0]|) else 1 + GroupNodes(k) + |k|
  }

  /** What any condition takes at most. */
  function ConditionNodes(groups: seq<Group>): nat {
    1 + GroupNodes(groups) + |groups|
  }

  function AllNodes(conditions: seq<ActivationCondition>): nat {
    if conditions == [] then 0
    else AllNodes(conditions[..|conditions| - 1]) + ConditionNodes(conditions[|conditions| - 1].groups)
  }

  lemma GroupNodesNext(groups: seq<Group>, i: nat)
    requires i < |groups|
    ensures GroupNodes(groups[..i + 1]) == GroupNodes(groups[..i]) + 1 + 5 * |groups[i]|
  {
    assert groups[..i + 1][..i] == groups[..i];
  }

  lemma SingleGroupNodes(g: Group)
    requires g != {}
    ensures KeyNodes([g]) <= 1 + 5 * |g|
  {
  }

  lemma AllNodesNext(conditions: seq<ActivationCondition>, i: nat)
    requires i < |conditions|
    ensures AllNodes(conditions[..i + 1]) == AllNodes(conditions[..i]) + ConditionNodes(conditions[i].groups)
  {
    assert conditions[..i + 1][..i] == conditions[..i];
  }

  lemma {:induction false} AllNodesMonotonic(conditions: seq<ActivationCondition>, i: nat)
    requires i <= |conditions|
    ensures AllNodes(conditions[..i]) <= AllNodes(conditions)
    decreases |conditions| - i
  {
    if i == |conditions| {
      assert conditions[..i] == conditions;
    } else {
      AllNodesNext(conditions, i);
      AllNodesMonotonic(conditions, i + 1);
    }
  }

  lemma NoConditionNodes(conditions: seq<ActivationCondition>)
    ensures AllNodes(conditions[..0]) == 0
  {
  }

  lemma NoGroupNodes(k: Key)
    ensures GroupNodes(k[..0]) == 0
  {
  }

  lemma SegmentKeyNodes(s: nat)
    ensures KeyNodes([{s}]) == 4
  {
  }

  /** What is left of a condition's nodes when it has its own. */
  lemma NormalKeyNodes(k: Key)
    ensures KeyNodes(k) >= 1
    ensures Unitary(k) ==> KeyNodes(k) - 1 == 3
    ensures |k| == 1 && |k[0]| > 1 ==> KeyNodes(k) - 1 == 5 * |k[0]|
    ensures |k| != 1 ==> KeyNodes(k) - 1 == GroupNodes(k) + |k|
  {
  }

  lemma IndexedTwice(a: seq<EntryNode>, b: seq<EntryNode>, c: seq<EntryNode>, index: nat)
    requires Indexed(a, b, index) && Indexed(b, c, index)
    ensures Indexed(a, c, index)
  {
  }

  lemma GroupGrows(segments: Segments, index: nat, a: seq<EntryNode>, b: seq<EntryNode>, c: seq<EntryNode>, k: Key, i: nat)
    requires i < |k| && GroupsIn(segments, [k[i]]) && Grew(segments, index, a, b, GroupNodes(k[..i])) && Grew(segments, index, b, c, KeyNodes([k[i]]))
    ensures Grew(segments, index, a, c, GroupNodes(k[..i + 1])) && Grew(segments, index, a, c, GroupNodes(k))
  {
    hide FromSegments, Indexed;
    IndexedTwice(a, b, c, index);
    assert [k[i]][0] == k[i];
    SingleGroupNodes(k[i]);
    GroupNodesNext(k, i);
    assert k == k[..i + 1] + k[i + 1..];
    GroupNodesConcat(k[..i + 1], k[i + 1..]);
  }

  lemma ConditionGrows(segments: Segments, a: seq<EntryNode>, b: seq<EntryNode>, c: seq<EntryNode>, conditions: seq<ActivationCondition>, i: nat, k: Key)
    requires i < |conditions| && Simplified(conditions[i].groups, k) && GroupsIn(segments, conditions[i].groups)
    requires GrewBy(segments, a, b, AllNodes(conditions[..i])) && GrewBy(segments, b, c, KeyNodes(k))
    ensures GrewBy(segments, a, c, AllNodes(conditions[..i + 1])) && |c| <= |a| + AllNodes(conditions)
  {
    hide FromSegments, Simplified;
    NormalFormNodes(conditions[i].groups, k);
    AllNodesNext(conditions, i);
    AllNodesMonotonic(conditions, i + 1);
  }

  lemma {:induction false} GroupNodesConcat(a: seq<Group>, b: seq<Group>)
    ensures GroupNodes(a + b) == GroupNodes(a) + GroupNodes(b)
  {
    if b == [] {
      assert a + b == a;
    } else {
      GroupNodesConcat(a, b[..|b| - 1]);
      assert (a + b)[..|a + b| - 1] == a + b[..|b| - 1];
    }
  }

  /** Some of the groups, each once, take no more nodes than all of them. */
  lemma {:induction false} FewerGroups(some: seq<Group>, groups: seq<Group>)
    requires forall i, j :: 0 <= i < j < |some| ==> some[i] != some[j]
    requires forall g :: g in some ==> g in groups
    ensures GroupNodes(some) <= GroupNodes(groups) && |some| <= |groups|
    decreases |some|
  {
    if some != [] {
      var n := |some| - 1;
      assert some[n] in some;
      var i :| 0 <= i < |groups| && groups[i] == some[n];
      var before, after := groups[..i], groups[i + 1..];
      forall g | g in some[..n] ensures g in before + after {
        var k :| 0 <= k < n && some[k] == g;
        assert g in some;
        var j :| 0 <= j < |groups| && groups[j] == g;
        assert (before + after)[if j < i then j else j - 1] == g;
      }
      FewerGroups(some[..n], before + after);
      GroupNodesConcat(before, after);
      assert groups == before + [groups[i]] + after;
      GroupNodesConcat(before + [groups[i]], after);
      GroupNodesConcat(before, [groups[i]]);
      assert GroupNodes([groups[i]]) == 1 + 5 * |groups[i]|;
    }
  }

  /** The normal form of a condition takes no more nodes than the condition. */
  lemma NormalFormNodes(groups: seq<Group>, k: Key)
    requires Simplified(groups, k) && forall i :: 0 <= i < |groups| ==> groups[i] != {}
    ensures KeyNodes(k) <= ConditionNodes(groups)
  {
    hide SetLess;
    forall i, j | 0 <= i < j < |k| ensures k[i] != k[j] {
      SetOrder(k[i], k[j]);
    }
    FewerGroups(k, groups);
    if |k| == 1 {
      assert k[0] in k;
      assert k[0] in groups && k[0] != {};
      assert GroupNodes(k) == 1 + 5 * |k[0]|;
    }
  }

  // ---------- what nodes cost ----------

  /** No node that compiling makes costs more than `most`. */
  ghost predicate CostsAtMost(cost: CostModel, segments: Segments, most: nat) {
    forall sets, conjunctive, n: nat :: Piece(segments, sets) && n <= MAX_CHILDREN ==> cost(sets, conjunctive, n) <= most
  }

  lemma {:induction false} LiveCostBound(cost: CostModel, segments: Segments, most: nat, nodes: seq<EntryNode>, counts: seq<nat>)
    requires CostsAtMost(cost, segments, most) && FromSegments(segments, nodes) && |nodes| == |counts|
    requires forall x :: 0 <= x < |nodes| ==> |nodes[x].children| <= MAX_CHILDREN
    ensures LiveCost(cost, nodes, counts) <= |nodes| * most
  {
    hide Piece;
    if nodes != [] {
      var n := |nodes| - 1;
      LiveCostBound(cost, segments, most, nodes[..n], counts[..n]);
      assert NodeCost(cost, nodes[n]) <= most;
      assert |nodes| * most == n * most + most;
    }
  }

  /** The conditions are small enough for all nodes, also those that optimising adds, to get an id. */
  ghost predicate Fits(cost: CostModel, segments: Segments, conditions: seq<ActivationCondition>, most: nat) {
    CostsAtMost(cost, segments, most) && AllNodes(conditions) + 3 * (AllNodes(conditions) * most) + 3 <= UINT32_MAX
  }

  lemma NodesFit(cost: CostModel, segments: Segments, conditions: seq<ActivationCondition>, most: nat)
    requires Fits(cost, segments, conditions, most)
    ensures AllNodes(conditions) <= UINT32_MAX
  {
  }

  lemma EnoughIds(cost: CostModel, segments: Segments, conditions: seq<ActivationCondition>, most: nat, nodes: seq<EntryNode>, counts: seq<nat>)
    requires Fits(cost, segments, conditions, most) && FromSegments(segments, nodes) && |nodes| == |counts|
    requires |nodes| <= AllNodes(conditions) && forall x :: 0 <= x < |nodes| ==> |nodes[x].children| <= MAX_CHILDREN
    ensures |nodes| + 3 * LiveCost(cost, nodes, counts) + 3 <= UINT32_MAX
  {
    LiveCostBound(cost, segments, most, nodes, counts);
    Times(|nodes|, AllNodes(conditions), most);
  }

  lemma Times(a: nat, b: nat, m: nat)
    requires a <= b
    ensures a * m <= b * m
  {
  }
}
