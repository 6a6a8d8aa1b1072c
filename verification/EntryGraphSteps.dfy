/** What the operations of an entry graph need to know of their steps. */
module EntryGraphSteps {
  import opened IntSets
  import opened SubsetDefinitions
  import opened EntryNodes
  import opened EntryGraphs
  import opened EntrySubsumption
  import opened EntryRewrites
  import opened EntrySort
  import opened EntryBuilding
  import opened EntryLinking
  import opened EntryCompilation
  import opened EntryEmission
  import opened SegmentGroups
  import opened ActivationConditions

  lemma RewritesFacts(n: seq<EntryNode>, c: seq<nat>, r: seq<nat>, roots: set<nat>, n': seq<EntryNode>, c': seq<nat>, r': seq<nat>)
    requires WellFormed(n, c, r, roots) && Rewrites(n, c, r, roots, n', c', r')
    ensures WellFormed(n', c', r', roots) && Acyclic(n', r') && |n'| == |c'|
    ensures Consistent(n', c', r', roots, multiset{})
  {
  }

  lemma TopologicalFacts(nodes: seq<EntryNode>, sorted: seq<nat>)
    requires Topological(nodes, sorted)
    ensures (forall i :: 0 <= i < |sorted| ==> sorted[i] < |nodes|) && forall x: nat :: x < |nodes| ==> x in sorted
  {
  }

  lemma AfterActuating(cost: CostModel, n: seq<EntryNode>, c: seq<nat>, r: seq<nat>, roots: set<nat>,
                       n2: seq<EntryNode>, c2: seq<nat>, r2: seq<nat>, n3: seq<EntryNode>, c3: seq<nat>, r3: seq<nat>, delta: int)
    requires WellFormed(n, c, r, roots) && Rewrites(n, c, r, roots, n2, c2, r2) && WellFormed(n2, c2, r2, roots)
    requires Rewrites(n2, c2, r2, roots, n3, c3, r3) && Costs(cost, n2, c2, delta, n3, c3)
    ensures Rewrites(n, c, r, roots, n3, c3, r3) && |n2| <= |n3| == |c3| && |n2| == |c2| && Acyclic(n3, r3)
    ensures LiveCost(cost, n3, c3) == LiveCost(cost, n2, c2) + delta
  {
    RewritesFacts(n2, c2, r2, roots, n3, c3, r3);
    RewritesCompose(n, c, r, roots, n2, c2, r2, n3, c3, r3);
  }

  lemma BuildingFacts(segments: Segments, g: Graph, open: set<Key>, pending: multiset<nat>)
    requires Building(segments, g, open, pending)
    ensures |g.nodes| == |g.counts| == |g.rank| && Acyclic(g.nodes, g.rank)
    ensures forall d :: d in g.bySets ==> g.bySets[d] < |g.nodes|
    ensures forall k :: k in g.byCondition ==> g.byCondition[k] < |g.nodes|
  {
    CoreFacts(g, pending);
    hide Core, Means;
  }

  lemma PartsNotEmpty(d: SubsetDefinition)
    ensures !d.Empty() ==> |Parts(d)| > 0
  {
  }

  lemma NoPartsRaised(g: Graph, v: nat, parts: seq<SubsetDefinition>, r: nat)
    requires HasParts(g, v, parts, 0) && v < |g.rank|
    ensures HasParts(g.(rank := g.rank[v := r]), v, parts, 0)
  {
  }

  /** What a node keeps when the graph is extended. */
  lemma KeepsNode(segments: Segments, g0: Graph, g: Graph, g': Graph, open: set<Key>, pending: multiset<nat>, id: nat)
    requires Extends(g0, g) && Extends(g, g') && id < |g.nodes| && Building(segments, g', open, pending)
    ensures Extends(g0, g') && id < |g'.nodes| == |g'.rank| && |g.rank| == |g.nodes| && g'.rank[id] == g.rank[id]
    ensures g'.nodes[id].sets == g.nodes[id].sets && g'.nodes[id].children == g.nodes[id].children && g'.nodes[id].mode == g.nodes[id].mode
  {
    hide Building;
  }

  ghost function IndicesOf(children: seq<nat>, index: map<nat, nat>): set<nat> {
    set c | c in children && c in index :: index[c]
  }

  lemma MoreIndices(children: seq<nat>, k: nat, index: map<nat, nat>)
    requires k < |children| && children[k] in index
    ensures IndicesOf(children[..k + 1], index) == IndicesOf(children[..k], index) + {index[children[k]]}
  {
    assert children[..k + 1] == children[..k] + [children[k]];
  }

  lemma NothingEmitted(nodes: seq<EntryNode>, rank: seq<nat>, counts: seq<nat>, sorted: seq<nat>, conditionOf: map<nat, Key>,
                       patchMappings: map<Key, seq<nat>>, patchEncodings: map<Key, PatchEncoding>)
    requires Acyclic(nodes, rank) && Topological(nodes, sorted) && |counts| == |nodes|
    ensures EmittedFrom(sorted, counts, |sorted|, map[]) && Emitted(nodes, map[], [], [])
    ensures Backwards([]) && Faithful(nodes, rank, [], [])
    ensures Labelled([], [], conditionOf, patchMappings, patchEncodings) && LastPatchId([]) == 0
  {
  }

  ghost predicate IsCompiled(segments: Segments, conditions: seq<ActivationCondition>, keys: seq<Key>, nodes: seq<EntryNode>,
                             counts: seq<nat>, rank: seq<nat>, byCondition: map<Key, nat>, patchMappings: map<Key, seq<nat>>,
                             patchEncodings: map<Key, PatchEncoding>)
  {
    && |keys| == |conditions| && patchMappings.Keys <= byCondition.Keys
    && WellFormed(nodes, counts, rank, RootsOf(patchMappings, byCondition)) && Acyclic(nodes, rank)
    && (forall k :: k in patchMappings <==> k in keys)
    && (forall i, j :: 0 <= i < j < |keys| ==> keys[i] != keys[j])
    && (forall i :: 0 <= i < |keys| ==> Carries(conditions[i], keys[i], patchMappings, patchEncodings))
    && forall k :: k in patchMappings ==> byCondition[k] < |nodes| && Means(segments, nodes, rank, byCondition[k], k)
  }

  /** Optimising leaves the compiled conditions what they were. */
  lemma StillCompiled(segments: Segments, conditions: seq<ActivationCondition>, keys: seq<Key>, n: seq<EntryNode>, c: seq<nat>, r: seq<nat>,
                      byCondition: map<Key, nat>, patchMappings: map<Key, seq<nat>>, patchEncodings: map<Key, PatchEncoding>,
                      n': seq<EntryNode>, c': seq<nat>, r': seq<nat>)
    requires IsCompiled(segments, conditions, keys, n, c, r, byCondition, patchMappings, patchEncodings)
    requires WellFormed(n, c, r, RootsOf(patchMappings, byCondition))
    requires Rewrites(n, c, r, RootsOf(patchMappings, byCondition), n', c', r')
    ensures IsCompiled(segments, conditions, keys, n', c', r', byCondition, patchMappings, patchEncodings)
  {
    hide WellFormed, Means, Carries, Acyclic, Rewrites, Consistent;
    var roots := RootsOf(patchMappings, byCondition);
    RewritesFacts(n, c, r, roots, n', c', r');
    forall k | k in patchMappings ensures byCondition[k] < |n'| && Means(segments, n', r', byCondition[k], k) {
      MeaningRewritten(segments, n, c, r, roots, n', c', r', byCondition[k], k);
    }
  }

  lemma MeaningRewritten(segments: Segments, n: seq<EntryNode>, c: seq<nat>, r: seq<nat>, roots: set<nat>,
                         n': seq<EntryNode>, c': seq<nat>, r': seq<nat>, id: nat, k: Key)
    requires WellFormed(n, c, r, roots) && Rewrites(n, c, r, roots, n', c', r') && Acyclic(n, r) && id in roots
    requires id < |n| && Means(segments, n, r, id, k)
    ensures id < |n'| && Acyclic(n', r') && Means(segments, n', r', id, k)
  {
    assert c'[id] > 0;
    hide WellFormed, Consistent, Eval, Acyclic;
    forall input ensures Eval(n', r', id, input) <==> Holds(k, Active(segments, input)) {
      assert Eval(n, r, id, input) == Eval(n', r', id, input);
    }
  }

  lemma ExtendsItself(segments: Segments, g: Graph, open: set<Key>, pending: multiset<nat>)
    requires Building(segments, g, open, pending)
    ensures Extends(g, g)
  {
    CoreFacts(g, pending);
  }

  lemma SharedLeafFacts(segments: Segments, g: Graph, open: set<Key>, pending: multiset<nat>, d: SubsetDefinition)
    requires Building(segments, g, open, pending) && d in g.bySets
    ensures g.bySets[d] < |g.nodes| && g.nodes[g.bySets[d]].children == {} && g.nodes[g.bySets[d]].sets == d
  {
    hide Core, ConditionsOk;
  }

  lemma ExtendsRegistered(g: Graph, g': Graph, k: Key, id: nat)
    requires Extends(g, g') && k !in g.byCondition
    ensures Extends(g, g'.(byCondition := g'.byCondition[k := id]))
  {
  }

  lemma WithNodeFields(g: Graph, node: EntryNode)
    ensures WithNode(g, node) == Graph(g.nodes + [node], g.counts + [1], g.rank + [0], g.byCondition, g.bySets, g.roots)
  {
  }

  lemma LinkZero(v: nat, base: nat)
    ensures Link(v, base, 0) == v
  {
  }

  lemma LinkedIndex(nodes: seq<EntryNode>, id: nat, children: seq<nat>)
    requires id < |nodes|
    ensures Linked(nodes, id, children)[id].conditionIndex == nodes[id].conditionIndex
  {
  }

  lemma ChainingLengths(g: Graph, v: nat, mode: ChildMode, ids: seq<nat>, bound: nat, m: nat, pending: multiset<nat>,
                        nodes: seq<EntryNode>, counts: seq<nat>, rank: seq<nat>)
    requires Chaining(g, v, mode, ids, bound, m, pending, nodes, counts, rank)
    ensures |nodes| == |counts| == |rank| && Link(v, |g.nodes|, m) < |nodes|
  {
  }

  ghost function PartsOf(r: SubsumptionResult): seq<SubsetDefinition> {
    (if r.codepoints.Some? then [NOTHING.(codepoints := r.codepoints.value)] else [])
    + (if r.features.Some? then [NOTHING.(features := r.features.value)] else [])
    + (if r.space.Some? then [NOTHING.(space := r.space.value)] else [])
  }

  /** The sets of a result are those of the summary, where they are not empty. */
  lemma SetsOfResult(r: SubsumptionResult, s: SubsetDefinition)
    requires r.codepoints == Opt<set<nat>>(s.codepoints, {}) && r.features == Opt<set<nat>>(s.features, {})
    requires r.space == Opt<Space>(s.space, map[])
    ensures s == SubsetDefinition(if r.codepoints.Some? then r.codepoints.value else {},
                                  if r.features.Some? then r.features.value else {},
                                  if r.space.Some? then r.space.value else map[])
    ensures s.NonEmptySets() == (if r.codepoints.Some? then 1 else 0) + (if r.features.Some? then 1 else 0)
                                + (if r.space.Some? then 1 else 0)
    ensures Parts(s) == PartsOf(r)
    ensures |Parts(s)| == s.NonEmptySets()
  {
  }

  lemma StartGrowing(n: seq<EntryNode>, c: seq<nat>, rank: seq<nat>, roots: set<nat>, v: nat, n2: seq<EntryNode>, c2: seq<nat>, m: EntryNode, cost: CostModel)
    requires v < |n| && IsWithout(n, c, rank, roots, v, n[v].children, n2, c2) && v < |n2|
    requires m == n2[v].(sets := NOTHING, mode := OR)
    ensures Grown(n2, c2, rank, roots, v, [], n2[v := m], c2, rank)
    ensures GrownCost(cost, n2, c2, v, [], n2[v := m], c2)
  {
    WithoutFacts(n, c, rank, roots, v, n[v].children, n2, c2);
    hide IsWithout, Consistent, LiveCost, Grown;
    GrowStart(n2, c2, rank, roots, v, m.conditionIndex);
    GrownCostStart(cost, n2, c2, v, m);
  }

  /** Losing its last edge takes a node's cost from the total. */
  lemma LessCost(cost: CostModel, nodes: seq<EntryNode>, counts: seq<nat>, id: nat)
    requires |nodes| == |counts| && id < |nodes|
    ensures LiveCost(cost, nodes, Less(counts, id)) + (if counts[id] == 1 then NodeCost(cost, nodes[id]) else 0)
            == LiveCost(cost, nodes, counts)
  {
    hide LiveCost, NodeCost;
    LiveCostUpdate(cost, nodes, counts, id, nodes[id], Less(counts, id)[id]);
    assert nodes[id := nodes[id]] == nodes;
    assert counts[id := Less(counts, id)[id]] == Less(counts, id);
  }

  lemma SummaryCostCases(cost: CostModel, s: SubsetDefinition)
    ensures s.NonEmptySets() <= 1 ==> SummaryCost(cost, s) == NodeCost(cost, EntryNode(s, NONE, {}, 0))
    ensures s.NonEmptySets() > 1 ==>
              var children := (if s.codepoints != {} then {0} else {}) + (if s.features != {} then {1} else {})
                              + (if s.space != map[] then {2} else {});
              SummaryCost(cost, s) == NodeCost(cost, EntryNode(NOTHING, OR, children, 0)) + PartsCost(cost, Parts(s))
  {
    hide PartsCost, Parts;
    ThreeChildren(s.codepoints != {}, s.features != {}, s.space != map[]);
  }

  lemma ThreeChildren(a: bool, b: bool, c: bool)
    ensures |(if a then {0} else {}) + (if b then {1} else {}) + (if c then {2} else {})|
            == (if a then 1 else 0) + (if b then 1 else 0) + (if c then 1 else 0)
  {
  }

  lemma PartsCostNext(cost: CostModel, parts: seq<SubsetDefinition>, k: nat)
    requires k < |parts|
    ensures PartsCost(cost, parts[..k + 1]) == PartsCost(cost, parts[..k]) + cost(parts[k], false, 0)
  {
    assert parts[..k + 1][..k] == parts[..k];
  }

  lemma ChildrenInRange(nodes: seq<EntryNode>, rank: seq<nat>, v: nat, taken: set<nat>)
    requires Acyclic(nodes, rank) && v < |nodes| && taken <= nodes[v].children
    ensures InRange(nodes, ToVector(taken))
  {
    DetachedAcyclic(nodes, rank, v, taken);
  }

  lemma NothingCleared(nodes: seq<EntryNode>, before: seq<nat>, after: seq<nat>)
    requires |nodes| == |before| == |after| && forall x :: 0 <= x < |nodes| && before[x] > 0 ==> after[x] > 0
    ensures Cleared(nodes, before, after) == nodes
  {
  }

  /** The node itself is cleared last. */
  lemma ClearedLast(nodes: seq<EntryNode>, before: seq<nat>, less: seq<nat>, id: nat, after: seq<nat>)
    requires |nodes| == |before| == |less| == |after| && id < |nodes|
    requires before[id] == 1 && less == before[id := 0] && forall x :: 0 <= x < |less| ==> after[x] <= less[x]
    ensures Cleared(nodes, less, after)[id := EMPTY_NODE] == Cleared(nodes, before, after)
  {
  }

  // ---------- how long chains are ----------

  /** No chain with fewer additional nodes has room for n children: each of them takes up a place in the one before. */
  ghost predicate IsShortestChain(n: nat, more: nat) {
    n <= MAX_CHILDREN + (MAX_CHILDREN - 1) * more && LongerThan(n, more)
  }

  /** One node less would not be enough. */
  ghost predicate LongerThan(n: nat, more: nat) {
    more > 0 ==> MAX_CHILDREN + (MAX_CHILDREN - 1) * (more - 1) < n
  }

  lemma NoneYet(n: nat)
    ensures LongerThan(n, 0)
  {
  }

  lemma TooMany(n: nat, m: nat)
    requires CHUNK * m + MAX_CHILDREN < n
    ensures LongerThan(n, m + 1)
  {
  }

  lemma Shortest(n: nat, m: nat)
    requires LongerThan(n, m) && n <= CHUNK * m + MAX_CHILDREN
    ensures IsShortestChain(n, m)
  {
  }
}
