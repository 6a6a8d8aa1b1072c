/** Subsumption as a rewrite of the graph: the new graph is well formed, every live node means what it meant, and the
    total cost changes by what was predicted. */
module EntryRewrites {
  import opened IntSets
  import opened SubsetDefinitions
  import opened EntryNodes
  import opened EntryGraphs
  import opened EntrySubsumption
  import opened Wrappers

  /** The second graph may replace the first: what is still live means what it meant. */
  ghost predicate Rewrites(n: seq<EntryNode>, c: seq<nat>, rank: seq<nat>, roots: set<nat>,
                           n': seq<EntryNode>, c': seq<nat>, rank': seq<nat>)
    requires WellFormed(n, c, rank, roots)
  {
    && WellFormed(n', c', rank', roots)
    && |n| <= |n'|
    && (forall x :: 0 <= x < |n| ==> c'[x] <= c[x])
    && forall x, input :: 0 <= x < |n| && c'[x] > 0 ==> Eval(n, rank, x, input) == Eval(n', rank', x, input)
  }

  lemma RewritesNothing(n: seq<EntryNode>, c: seq<nat>, rank: seq<nat>, roots: set<nat>)
    requires WellFormed(n, c, rank, roots)
    ensures Rewrites(n, c, rank, roots, n, c, rank)
  {
  }

  lemma RewritesCompose(n1: seq<EntryNode>, c1: seq<nat>, r1: seq<nat>, roots: set<nat>, n2: seq<EntryNode>, c2: seq<nat>, r2: seq<nat>,
                        n3: seq<EntryNode>, c3: seq<nat>, r3: seq<nat>)
    requires WellFormed(n1, c1, r1, roots) && Rewrites(n1, c1, r1, roots, n2, c2, r2)
    requires Rewrites(n2, c2, r2, roots, n3, c3, r3)
    ensures Rewrites(n1, c1, r1, roots, n3, c3, r3)
  {
    hide WellFormed, Eval;
    Lengths(n1, c1, r1, roots);
    Lengths(n2, c2, r2, roots);
    Lengths(n3, c3, r3, roots);
    forall x, input | 0 <= x < |n1| && c3[x] > 0 ensures Eval(n1, r1, x, input) == Eval(n3, r3, x, input) {
      assert Eval(n2, r2, x, input) == Eval(n3, r3, x, input);
    }
  }

  lemma Lengths(n: seq<EntryNode>, c: seq<nat>, rank: seq<nat>, roots: set<nat>)
    requires WellFormed(n, c, rank, roots)
    ensures |n| == |c| == |rank| && Acyclic(n, rank)
  {
  }

  /** The nodes and counts after v let go of `taken`. */
  ghost predicate IsWithout(n: seq<EntryNode>, c: seq<nat>, rank: seq<nat>, roots: set<nat>, v: nat, taken: set<nat>,
                            n2: seq<EntryNode>, c2: seq<nat>)
  {
    && WellFormed(n, c, rank, roots)
    && v < |n| && c[v] > 0 && taken <= n[v].children
    && InRange(n, ToVector(taken))
    && n2 == NodesWithout(n, c, v, taken) && c2 == CountsWithout(n, c, taken)
  }

  lemma WithoutFacts(n: seq<EntryNode>, c: seq<nat>, rank: seq<nat>, roots: set<nat>, v: nat, taken: set<nat>,
                     n2: seq<EntryNode>, c2: seq<nat>)
    requires IsWithout(n, c, rank, roots, v, taken, n2, c2)
    ensures Consistent(n2, c2, rank, roots, multiset{}) && v < |n2| == |n| == |c2| == |rank| && c2[v] > 0
    ensures n2[v] == n[v].(children := n[v].children - taken)
    ensures forall x :: 0 <= x < |n| && x != v && c2[x] > 0 ==> n2[x] == n[x]
    ensures forall x :: 0 <= x < |n| ==> c2[x] <= c[x]
    ensures forall x :: 0 <= x < |n| ==> n2[x] == (if x == v then n2[v] else n[x]) || n2[x] == EMPTY_NODE
  {
    TakeChildren(n, c, rank, roots, v, taken);
  }

  /** Without `taken` the total cost lacks what is freed, and v costs what is left of it. */
  lemma WithoutCost(cost: CostModel, n: seq<EntryNode>, c: seq<nat>, rank: seq<nat>, roots: set<nat>, v: nat, taken: set<nat>,
                    n2: seq<EntryNode>, c2: seq<nat>)
    requires IsWithout(n, c, rank, roots, v, taken, n2, c2)
    ensures LiveCost(cost, n2, c2) + NodeCost(cost, n[v]) == LiveCost(cost, n, c) - Freed(cost, n, c, taken) + NodeCost(cost, n2[v])
  {
    WithoutFacts(n, c, rank, roots, v, taken, n2, c2);
    hide IsWithout, WellFormed, Consistent, NodeCost;
    var n1 := n[v := n2[v]];
    LiveCostSame(cost, n1, n2, c2);
    LiveCostUpdate(cost, n, c2, v, n2[v], c2[v]);
    assert c2[v := c2[v]] == c2;
  }

  /** What v's new children may be: those it keeps. */
  lemma ChildrenStayBelow(n: seq<EntryNode>, c: seq<nat>, rank: seq<nat>, roots: set<nat>, v: nat, taken: set<nat>,
                          n2: seq<EntryNode>, c2: seq<nat>, m: EntryNode, child: nat, input: SubsetDefinition)
    requires IsWithout(n, c, rank, roots, v, taken, n2, c2) && m.children == n2[v].children && child in m.children
    requires Consistent(n2[v := m], c2, rank, roots, multiset{})
    ensures child < |n| && Eval(n, rank, child, input) == Eval(n2[v := m], rank, child, input)
  {
    WithoutFacts(n, c, rank, roots, v, taken, n2, c2);
    var n3 := n2[v := m];
    ParentsAreLive(n3, c2, rank, roots, multiset{}, v);
    assert child in n3[v].children;
    hide WellFormed, Consistent, IsWithout;
    assert Acyclic(n, rank) by { Lengths(n, c, rank, roots); }
    assert Consistent(n3, c2, rank, roots, multiset{});
    assert rank[child] < rank[v];
    MeaningBelow(n, rank, n3, rank, c2, roots, v, child, input);
  }

  /** A well formed graph that agrees with n on the live nodes but v, where v means what it meant, may replace n. */
  lemma MakesRewrite(n: seq<EntryNode>, c: seq<nat>, rank: seq<nat>, roots: set<nat>, v: nat,
                     n': seq<EntryNode>, c': seq<nat>, rank': seq<nat>)
    requires WellFormed(n, c, rank, roots) && WellFormed(n', c', rank', roots)
    requires Acyclic(n, rank) && Acyclic(n', rank') && v < |n| == |c| && |n| <= |n'| == |c'|
    requires forall x :: 0 <= x < |n| ==> c'[x] <= c[x] && (x != v && c'[x] > 0 ==> n'[x] == n[x])
    requires forall input :: Eval(n, rank, v, input) == Eval(n', rank', v, input)
    ensures Rewrites(n, c, rank, roots, n', c', rank')
  {
    assert Consistent(n', c', rank', roots, multiset{});
    hide WellFormed, Consistent, Eval, Acyclic;
    forall x, input | 0 <= x < |n| && c'[x] > 0 ensures Eval(n, rank, x, input) == Eval(n', rank', x, input) {
      MeaningKept(n, rank, n', rank', c', roots, v, x, input);
    }
  }

  /** The rewritten graph, when v means what it meant and is no bare leaf. */
  lemma ReplacedRewrites(n: seq<EntryNode>, c: seq<nat>, rank: seq<nat>, roots: set<nat>, v: nat, taken: set<nat>,
                         n2: seq<EntryNode>, c2: seq<nat>, m: EntryNode)
    requires IsWithout(n, c, rank, roots, v, taken, n2, c2) && m.children == n2[v].children
    requires Consistent(n2[v := m], c2, rank, roots, multiset{})
    requires m.children == {} ==> !m.sets.Empty()
    requires forall input :: Eval(n, rank, v, input) == Eval(n2[v := m], rank, v, input)
    ensures Rewrites(n, c, rank, roots, n2[v := m], c2, rank)
  {
    hide *;
    WithoutFacts(n, c, rank, roots, v, taken, n2, c2);
    var n3 := n2[v := m];
    WithoutIsWellFormed(n, c, rank, roots, v, taken, n2, c2);
    forall x | 0 <= x < |n3| ensures LeavesHaveSets(n3, x) && |n3[x].children| <= MAX_CHILDREN {
      LeavesStay(n, c, rank, roots, v, taken, n2, c2, m, x);
    }
    GrownWellFormed(n3, c2, rank, roots);
    Lengths(n, c, rank, roots);
    Lengths(n3, c2, rank, roots);
    MakesRewrite(n, c, rank, roots, v, n3, c2, rank);
  }

  lemma LeavesStay(n: seq<EntryNode>, c: seq<nat>, rank: seq<nat>, roots: set<nat>, v: nat, taken: set<nat>,
                   n2: seq<EntryNode>, c2: seq<nat>, m: EntryNode, x: nat)
    requires IsWithout(n, c, rank, roots, v, taken, n2, c2) && m.children == n2[v].children && x < |n2|
    requires Consistent(n2[v := m], c2, rank, roots, multiset{})
    requires m.children == {} ==> !m.sets.Empty()
    ensures LeavesHaveSets(n2[v := m], x) && |n2[v := m][x].children| <= MAX_CHILDREN
  {
    var n3 := n2[v := m];
    WithoutFacts(n, c, rank, roots, v, taken, n2, c2);
    assert n3[x].children <= n[x].children;
    assert LeavesHaveSets(n, x);
    FewerChildren(n3[x].children, n[x].children);
    ParentsAreLive(n3, c2, rank, roots, multiset{}, x);
  }

  lemma FewerChildren(a: set<nat>, b: set<nat>)
    requires a <= b
    ensures |a| <= |b|
  {
    assert b == a + (b - a);
  }

  // ---------- one node for everything ----------

  /** A disjunctive node whose summary has one set becomes a leaf with that set. */
  lemma LeafRewrites(n: seq<EntryNode>, c: seq<nat>, rank: seq<nat>, roots: set<nat>, v: nat, n2: seq<EntryNode>, c2: seq<nat>, m: EntryNode)
    requires v < |n| && IsWithout(n, c, rank, roots, v, n[v].children, n2, c2) && n[v].children != {}
    requires Summary(n, rank, v).Some? && Summary(n, rank, v).value.NonEmptySets() <= 1
    requires m.sets == Summary(n, rank, v).value && m.mode == NONE && m.children == {}
    ensures Rewrites(n, c, rank, roots, n2[v := m], c2, rank)
  {
    WithoutFacts(n, c, rank, roots, v, n[v].children, n2, c2);
    assert LeavesOk(n, v);
    hide WellFormed, IsWithout, LeavesOk;
    assert m.children == n2[v].children;
    ReplaceSets(n2, c2, rank, roots, multiset{}, v, m);
    Lengths(n, c, rank, roots);
    SummaryMeaning(n, rank, v, NOTHING);
    forall input ensures Eval(n, rank, v, input) == Eval(n2[v := m], rank, v, input) {
      SummaryMeaning(n, rank, v, input);
      EvalLeaf(n2[v := m], rank, v, input);
    }
    ReplacedRewrites(n, c, rank, roots, v, n[v].children, n2, c2, m);
  }

  // ---------- conjunctive nodes ----------

  /** A conjunctive node takes over the sets of the chosen children. */
  lemma ChoiceRewrites(n: seq<EntryNode>, c: seq<nat>, rank: seq<nat>, roots: set<nat>, v: nat, choice: Choice,
                       n2: seq<EntryNode>, c2: seq<nat>, m: EntryNode)
    requires WellFormed(n, c, rank, roots) && v < |n| && ValidChoice(n, rank, v, choice) && choice.Ids() != {}
    requires IsWithout(n, c, rank, roots, v, choice.Ids(), n2, c2) && n[v].mode == AND
    requires m == n2[v].(sets := ChosenSets(n, rank, v, choice))
    ensures Rewrites(n, c, rank, roots, n2[v := m], c2, rank)
  {
    WithoutFacts(n, c, rank, roots, v, choice.Ids(), n2, c2);
    assert forall y :: 0 <= y < |n| ==> LeavesHaveSets(n, y);
    ChoiceIsChildren(n, rank, v, choice);
    hide WellFormed, IsWithout, LeavesHaveSets, ValidChoice, ChosenSets, Eval;
    ReplaceSets(n2, c2, rank, roots, multiset{}, v, m);
    forall input ensures Eval(n, rank, v, input) == Eval(n2[v := m], rank, v, input) {
      ChoiceMeaning(n, rank, v, choice, input);
      EvalAnd(n2[v := m], rank, v, input);
      forall child | child in m.children ensures child < |n| && Eval(n, rank, child, input) == Eval(n2[v := m], rank, child, input) {
        ChildrenStayBelow(n, c, rank, roots, v, choice.Ids(), n2, c2, m, child, input);
      }
    }
    ReplacedRewrites(n, c, rank, roots, v, choice.Ids(), n2, c2, m);
  }

  // ---------- a node with one child for each set ----------

  /** In the graph n2, v has become an empty disjunctive node with a new leaf for each of the parts. */
  ghost predicate Grown(n2: seq<EntryNode>, c2: seq<nat>, rank: seq<nat>, roots: set<nat>, v: nat,
                        parts: seq<SubsetDefinition>, nodes: seq<EntryNode>, counts: seq<nat>, rank': seq<nat>)
  {
    && v < |n2| == |c2| == |rank| && |nodes| == |counts| == |rank'| == |n2| + |parts| && c2[v] > 0
    && Consistent(nodes, counts, rank', roots, multiset{})
    && (forall x :: 0 <= x < |n2| ==> counts[x] == c2[x] && rank'[x] == rank[x] && (x != v ==> nodes[x] == n2[x]))
    && nodes[v].mode == OR && nodes[v].sets == NOTHING && LeavesOf(nodes, v, |n2|, parts)
  }

  lemma GrowStart(n2: seq<EntryNode>, c2: seq<nat>, rank: seq<nat>, roots: set<nat>, v: nat, ci: nat)
    requires Consistent(n2, c2, rank, roots, multiset{}) && v < |n2| == |c2| && c2[v] > 0 && n2[v].children == {}
    ensures Grown(n2, c2, rank, roots, v, [], n2[v := EntryNode(NOTHING, OR, {}, ci)], c2, rank)
  {
    assert |rank| == |n2|;
    hide Consistent;
    ReplaceSets(n2, c2, rank, roots, multiset{}, v, EntryNode(NOTHING, OR, {}, ci));
  }

  lemma GrowNext(n2: seq<EntryNode>, c2: seq<nat>, rank: seq<nat>, roots: set<nat>, v: nat,
                 parts: seq<SubsetDefinition>, nodes: seq<EntryNode>, counts: seq<nat>, rank': seq<nat>, part: SubsetDefinition, ci: nat)
    requires v < |nodes| && Grown(n2, c2, rank, roots, v, parts, nodes, counts, rank') && rank[v] > 0
    ensures var m := nodes[v].(children := nodes[v].children + {|nodes|});
            Grown(n2, c2, rank, roots, v, parts + [part],
                  nodes[v := m] + [EntryNode(part, NONE, {}, ci)], counts + [1], rank' + [0])
  {
    hide Consistent, LeavesOf;
    AddLeaf(nodes, counts, rank', roots, v, EntryNode(part, NONE, {}, ci));
    OneMoreLeaf(nodes, v, |n2|, parts, part, ci);
  }

  lemma OneMoreLeaf(nodes: seq<EntryNode>, v: nat, base: nat, parts: seq<SubsetDefinition>, part: SubsetDefinition, ci: nat)
    requires v < base && v < |nodes| && LeavesOf(nodes, v, base, parts)
    ensures var m := nodes[v].(children := nodes[v].children + {|nodes|});
            LeavesOf(nodes[v := m] + [EntryNode(part, NONE, {}, ci)], v, base, parts + [part])
  {
    var m := nodes[v].(children := nodes[v].children + {|nodes|});
    var nodes' := nodes[v := m] + [EntryNode(part, NONE, {}, ci)];
    forall k | 0 <= k < |parts| + 1 ensures SameMeaning(nodes'[base + k], EntryNode((parts + [part])[k], NONE, {}, 0)) {
      if k < |parts| {
        assert SameMeaning(nodes[base + k], EntryNode(parts[k], NONE, {}, 0));
      }
    }
  }

  lemma RankPositive(n: seq<EntryNode>, c: seq<nat>, rank: seq<nat>, roots: set<nat>, v: nat)
    requires WellFormed(n, c, rank, roots) && v < |n| && n[v].children != {}
    ensures |rank| == |n| && rank[v] > 0
  {
    var child :| child in n[v].children;
    assert rank[child] < rank[v];
  }

  /** The total cost changes by the new leaves and by what v itself costs now. */
  lemma GrowCost(cost: CostModel, nodes: seq<EntryNode>, counts: seq<nat>, v: nat, part: SubsetDefinition, ci: nat)
    requires |nodes| == |counts| && v < |nodes| && counts[v] > 0
    ensures var m := nodes[v].(children := nodes[v].children + {|nodes|});
            LiveCost(cost, nodes[v := m] + [EntryNode(part, NONE, {}, ci)], counts + [1]) + NodeCost(cost, nodes[v])
            == LiveCost(cost, nodes, counts) + NodeCost(cost, m) + cost(part, false, 0)
  {
    var m := nodes[v].(children := nodes[v].children + {|nodes|});
    LiveCostUpdate(cost, nodes, counts, v, m, counts[v]);
    assert counts[v := counts[v]] == counts;
    var nodes' := nodes[v := m] + [EntryNode(part, NONE, {}, ci)];
    assert nodes'[..|nodes|] == nodes[v := m] && (counts + [1])[..|nodes|] == counts;
    assert NodeCost(cost, EntryNode(part, NONE, {}, ci)) == cost(part, false, 0);
  }

  lemma GrownRewrites(n: seq<EntryNode>, c: seq<nat>, rank: seq<nat>, roots: set<nat>, v: nat, n2: seq<EntryNode>, c2: seq<nat>,
                      parts: seq<SubsetDefinition>, nodes: seq<EntryNode>, counts: seq<nat>, rank': seq<nat>)
    requires v < |n| && n[v].children != {} && IsWithout(n, c, rank, roots, v, n[v].children, n2, c2)
    requires Grown(n2, c2, rank, roots, v, parts, nodes, counts, rank')
    requires Acyclic(n, rank) && Summary(n, rank, v).Some? && parts == Parts(Summary(n, rank, v).value) && parts != []
    ensures Rewrites(n, c, rank, roots, nodes, counts, rank')
    ensures |nodes[v].children| == |parts|
  {
    WithoutFacts(n, c, rank, roots, v, n[v].children, n2, c2);
    WithoutIsWellFormed(n, c, rank, roots, v, n[v].children, n2, c2);
    GrownChildren(n, c, rank, roots, v, n2, c2, parts, nodes, counts, rank');
    ConsistentIsAcyclic(nodes, counts, rank', roots);
    GrownWellFormed(nodes, counts, rank', roots);
    hide WellFormed, IsWithout, LeavesHaveSets, Consistent, Eval, Summary, LeavesOf, Parts, Acyclic;
    forall input ensures Eval(n, rank, v, input) == Eval(nodes, rank', v, input) {
      GrownMeaning(n, c, rank, roots, v, nodes, rank', parts, input);
    }
    MakesRewrite(n, c, rank, roots, v, nodes, counts, rank');
  }

  lemma GrownMeaning(n: seq<EntryNode>, c: seq<nat>, rank: seq<nat>, roots: set<nat>, v: nat, nodes: seq<EntryNode>, rank': seq<nat>,
                     parts: seq<SubsetDefinition>, input: SubsetDefinition)
    requires WellFormed(n, c, rank, roots) && v < |n| && n[v].children != {} && Summary(n, rank, v).Some?
    requires parts == Parts(Summary(n, rank, v).value) && parts != []
    requires Acyclic(nodes, rank') && v < |nodes| && LeavesOf(nodes, v, |n|, parts)
    requires nodes[v].mode == OR && nodes[v].sets == NOTHING
    ensures Eval(n, rank, v, input) == Eval(nodes, rank', v, input)
  {
    assert LeavesOk(n, v);
    hide WellFormed, LeavesHaveSets, Eval, Summary, LeavesOf;
    SummaryMeaning(n, rank, v, input);
    PartsMet(Summary(n, rank, v).value, input);
    LeavesMeaning(nodes, rank', v, |n|, parts, input);
  }

  lemma ConsistentIsAcyclic(nodes: seq<EntryNode>, counts: seq<nat>, rank: seq<nat>, roots: set<nat>)
    requires Consistent(nodes, counts, rank, roots, multiset{})
    ensures Acyclic(nodes, rank) && |nodes| == |counts| == |rank|
  {
  }

  lemma WithoutIsWellFormed(n: seq<EntryNode>, c: seq<nat>, rank: seq<nat>, roots: set<nat>, v: nat, taken: set<nat>,
                            n2: seq<EntryNode>, c2: seq<nat>)
    requires IsWithout(n, c, rank, roots, v, taken, n2, c2)
    ensures WellFormed(n, c, rank, roots)
  {
  }

  lemma GrownWellFormed(nodes: seq<EntryNode>, counts: seq<nat>, rank: seq<nat>, roots: set<nat>)
    requires Consistent(nodes, counts, rank, roots, multiset{})
    requires forall x :: 0 <= x < |nodes| ==> LeavesHaveSets(nodes, x) && |nodes[x].children| <= MAX_CHILDREN
    ensures WellFormed(nodes, counts, rank, roots)
  {
  }

  lemma RangeSize(s: set<nat>, lo: nat, n: nat)
    requires forall x :: x in s <==> lo <= x < lo + n
    ensures |s| == n
  {
    if n == 0 {
      assert s == {};
    } else {
      RangeSize(s - {lo + n - 1}, lo, n - 1);
    }
  }

  lemma GrownChildren(n: seq<EntryNode>, c: seq<nat>, rank: seq<nat>, roots: set<nat>, v: nat, n2: seq<EntryNode>, c2: seq<nat>,
                      parts: seq<SubsetDefinition>, nodes: seq<EntryNode>, counts: seq<nat>, rank': seq<nat>)
    requires v < |n| && IsWithout(n, c, rank, roots, v, n[v].children, n2, c2)
    requires Grown(n2, c2, rank, roots, v, parts, nodes, counts, rank') && 0 < |parts| <= 3
    requires forall k :: 0 <= k < |parts| ==> parts[k].NonEmptySets() == 1
    ensures forall x :: 0 <= x < |nodes| ==> LeavesHaveSets(nodes, x) && |nodes[x].children| <= MAX_CHILDREN
    ensures |nodes[v].children| == |parts|
  {
    WithoutFacts(n, c, rank, roots, v, n[v].children, n2, c2);
    RangeSize(nodes[v].children, |n|, |parts|);
    hide WellFormed, Consistent, IsWithout, LeavesHaveSets, LeavesOf;
    forall x | 0 <= x < |nodes| ensures LeavesHaveSets(nodes, x) && |nodes[x].children| <= MAX_CHILDREN {
      if x >= |n| || x == v {
        NewChildrenOk(nodes, v, |n|, parts, x);
      } else {
        OldChildrenOk(n, c, rank, roots, v, n2, c2, parts, nodes, counts, rank', x);
      }
    }
  }

  lemma NewChildrenOk(nodes: seq<EntryNode>, v: nat, base: nat, parts: seq<SubsetDefinition>, x: nat)
    requires v < |nodes| && LeavesOf(nodes, v, base, parts) && 0 < |parts| <= 3 && x < |nodes| && (x >= base || x == v)
    requires v < base && forall k :: 0 <= k < |parts| ==> parts[k].NonEmptySets() == 1
    ensures LeavesHaveSets(nodes, x) && |nodes[x].children| <= MAX_CHILDREN
  {
    if x >= base {
      assert SameMeaning(nodes[base + (x - base)], EntryNode(parts[x - base], NONE, {}, 0));
    } else {
      RangeSize(nodes[v].children, base, |parts|);
      forall child | child in nodes[x].children ensures base <= child < |nodes| && !nodes[child].sets.Empty() {
        assert SameMeaning(nodes[base + (child - base)], EntryNode(parts[child - base], NONE, {}, 0));
      }
    }
  }

  lemma OldChildrenOk(n: seq<EntryNode>, c: seq<nat>, rank: seq<nat>, roots: set<nat>, v: nat, n2: seq<EntryNode>, c2: seq<nat>,
                      parts: seq<SubsetDefinition>, nodes: seq<EntryNode>, counts: seq<nat>, rank': seq<nat>, x: nat)
    requires v < |n| && IsWithout(n, c, rank, roots, v, n[v].children, n2, c2)
    requires Grown(n2, c2, rank, roots, v, parts, nodes, counts, rank') && 0 < |parts| && x < |n2| && x != v
    ensures x < |nodes| && LeavesHaveSets(nodes, x) && |nodes[x].children| <= MAX_CHILDREN
  {
    WithoutFacts(n, c, rank, roots, v, n[v].children, n2, c2);
    assert LeavesHaveSets(n, x) && |n[x].children| <= MAX_CHILDREN;
    Lengths(n, c, rank, roots);
    ParentsAreLive(nodes, counts, rank', roots, multiset{}, x);
    assert forall child :: child in n[x].children ==> child < |n|;
    hide WellFormed, Consistent, IsWithout, Acyclic;
    assert |n2| in nodes[v].children;
    forall child | child in nodes[x].children && child < |nodes| && nodes[child].children == {} ensures !nodes[child].sets.Empty() {
      assert child in n[x].children;
      assert child != v;
    }
  }

  // ---------- letting go of children one by one ----------

  ghost predicate PartlyDetached(n: seq<EntryNode>, c: seq<nat>, v: nat, ids: seq<nat>, k: nat, nodes: seq<EntryNode>, counts: seq<nat>)
  {
    && |n| == |c| && v < |n| && k <= |ids| && InRange(n, ids[..k])
    && counts == Drop(n, c, ids[..k])
    && nodes == Cleared(Detached(n, v, ToSet(ids[..k])), c, counts)
  }

  lemma DetachStart(n: seq<EntryNode>, c: seq<nat>, v: nat, ids: seq<nat>)
    requires |n| == |c| && v < |n| && InRange(n, ids)
    ensures PartlyDetached(n, c, v, ids, 0, n, c)
  {
    assert ids[..0] == [];
    assert ToSet(ids[..0]) == {};
    assert n[v].children - {} == n[v].children;
  }

  lemma DetachNext(n: seq<EntryNode>, c: seq<nat>, rank: seq<nat>, v: nat, ids: seq<nat>, k: nat, nodes: seq<EntryNode>, counts: seq<nat>)
    requires PartlyDetached(n, c, v, ids, k, nodes, counts) && k < |ids| && InRange(n, ids)
    requires Acyclic(n, rank) && c[v] > 0 && Below(rank, ids, rank[v])
    ensures v < |nodes| == |n| == |counts| && InRange(nodes, [ids[k]])
    ensures var counts' := Drop(nodes, counts, [ids[k]]);
            var nodes' := Cleared(nodes, counts, counts');
            PartlyDetached(n, c, v, ids, k + 1, nodes'[v := nodes'[v].(children := nodes'[v].children - {ids[k]})], counts')
  {
    hide Drop, InRange, Acyclic, Below, ToSet;
    DropNext(n, c, rank, v, ids, k, nodes, counts);
    var d, counts' := Detached(n, v, ToSet(ids[..k])), Drop(nodes, counts, [ids[k]]);
    ClearedTwice(d, c, counts, counts');
    MoreDetached(n, v, ids, k);
    assert Cleared(Detached(n, v, ToSet(ids[..k + 1])), c, counts')
           == Cleared(d, c, counts')[v := d[v].(children := d[v].children - {ids[k]})];
  }

  lemma MoreDetached(n: seq<EntryNode>, v: nat, ids: seq<nat>, k: nat)
    requires v < |n| && k < |ids|
    ensures var d := Detached(n, v, ToSet(ids[..k]));
            Detached(n, v, ToSet(ids[..k + 1])) == d[v := d[v].(children := d[v].children - {ids[k]})]
  {
    assert ids[..k + 1] == ids[..k] + [ids[k]];
    assert ToSet(ids[..k + 1]) == ToSet(ids[..k]) + {ids[k]};
    assert n[v].children - ToSet(ids[..k]) - {ids[k]} == n[v].children - (ToSet(ids[..k]) + {ids[k]});
  }

  lemma DropNext(n: seq<EntryNode>, c: seq<nat>, rank: seq<nat>, v: nat, ids: seq<nat>, k: nat, nodes: seq<EntryNode>, counts: seq<nat>)
    requires PartlyDetached(n, c, v, ids, k, nodes, counts) && k < |ids| && InRange(n, ids)
    requires Acyclic(n, rank) && c[v] > 0 && Below(rank, ids, rank[v])
    ensures |nodes| == |n| == |counts| && InRange(nodes, [ids[k]]) && InRange(n, ids[..k + 1])
    ensures Drop(nodes, counts, [ids[k]]) == Drop(n, c, ids[..k + 1])
    ensures forall x :: 0 <= x < |n| ==> counts[x] <= c[x] && Drop(nodes, counts, [ids[k]])[x] <= counts[x]
    ensures Drop(nodes, counts, [ids[k]])[v] == c[v]
  {
    NextDrop(n, c, ids, k);
    NextLowers(n, c, rank, v, ids, k);
    hide Drop, Acyclic, Below, ToSet;
    assert n[v].children - ToSet(ids[..k]) <= n[v].children;
    assert InRange(nodes, [ids[k]]);
    hide InRange;
    DropFrame(n, nodes, counts, [ids[k]]);
  }

  /** Neither the drops so far nor the next one raise a count or reach v. */
  lemma NextLowers(n: seq<EntryNode>, c: seq<nat>, rank: seq<nat>, v: nat, ids: seq<nat>, k: nat)
    requires |n| == |c| && v < |n| && k < |ids| && InRange(n, ids) && InRange(n, ids[..k]) && InRange(n, [ids[k]])
    requires Acyclic(n, rank) && Below(rank, ids, rank[v])
    ensures var counts := Drop(n, c, ids[..k]);
            && (forall x :: 0 <= x < |n| ==> counts[x] <= c[x] && Drop(n, counts, [ids[k]])[x] <= counts[x])
            && Drop(n, counts, [ids[k]])[v] == counts[v] == c[v]
  {
    hide Drop;
    var done := ids[..k];
    var counts := Drop(n, c, done);
    DropLowers(n, c, done);
    DropLowers(n, counts, [ids[k]]);
    DropKeepsAbove(n, rank, c, done, rank[v]);
    DropKeepsAbove(n, rank, counts, [ids[k]], rank[v]);
  }

  lemma NextDrop(nodes: seq<EntryNode>, counts: seq<nat>, work: seq<nat>, k: nat)
    requires |nodes| == |counts| && InRange(nodes, work) && k < |work|
    ensures InRange(nodes, work[..k]) && InRange(nodes, [work[k]]) && InRange(nodes, work[..k + 1])
    ensures Drop(nodes, counts, work[..k + 1]) == Drop(nodes, Drop(nodes, counts, work[..k]), [work[k]])
    ensures Sum(Drop(nodes, counts, work[..k])) <= Sum(counts)
  {
    assert work[..k + 1] == work[..k] + [work[k]];
    DropConcat(nodes, counts, work[..k], [work[k]]);
    DropSum(nodes, counts, work[..k]);
  }

  lemma VectorSet(s: set<nat>)
    ensures ToSet(ToVector(s)) == s
  {
    var w := ToVector(s);
    assert forall x :: x in s <==> x in w;
  }

  lemma DetachEnd(n: seq<EntryNode>, c: seq<nat>, rank: seq<nat>, roots: set<nat>, v: nat, taken: set<nat>, ids: seq<nat>,
                  nodes: seq<EntryNode>, counts: seq<nat>)
    requires WellFormed(n, c, rank, roots) && v < |n| == |c| && c[v] > 0 && taken <= n[v].children
    requires ids == ToVector(taken) && PartlyDetached(n, c, v, ids, |ids|, nodes, counts)
    ensures IsWithout(n, c, rank, roots, v, taken, nodes, counts)
  {
    Lengths(n, c, rank, roots);
    DetachedAcyclic(n, rank, v, taken);
    VectorSet(taken);
    assert ids[..|ids|] == ids;
    hide ToVector, WellFormed, InRange, Drop, Acyclic, ToSet, Detached;
    assert counts == CountsWithout(n, c, taken);
    assert nodes == NodesWithout(n, c, v, taken);
  }

  // ---------- results put into effect ----------

  ghost predicate Costs(cost: CostModel, n: seq<EntryNode>, c: seq<nat>, delta: int, n': seq<EntryNode>, c': seq<nat>) {
    |n| == |c| && |n'| == |c'| && LiveCost(cost, n', c') == LiveCost(cost, n, c) + delta
  }

  lemma ReplacedCost(cost: CostModel, n: seq<EntryNode>, c: seq<nat>, rank: seq<nat>, roots: set<nat>, v: nat, taken: set<nat>,
                     n2: seq<EntryNode>, c2: seq<nat>, m: EntryNode)
    requires IsWithout(n, c, rank, roots, v, taken, n2, c2) && v < |n| == |n2| == |c| == |c2| && InRange(n, ToVector(taken))
    ensures Costs(cost, n, c, NodeCost(cost, m) - NodeCost(cost, n[v]) - Freed(cost, n, c, taken), n2[v := m], c2)
  {
    hide IsWithout, Consistent, WellFormed, Freed, LiveCost, NodeCost, InRange, ToVector;
    WithoutFacts(n, c, rank, roots, v, taken, n2, c2);
    WithoutCost(cost, n, c, rank, roots, v, taken, n2, c2);
    LiveCostUpdate(cost, n2, c2, v, m, c2[v]);
    assert c2[v := c2[v]] == c2;
  }

  lemma WithoutShape(n: seq<EntryNode>, c: seq<nat>, rank: seq<nat>, roots: set<nat>, v: nat, taken: set<nat>, n2: seq<EntryNode>, c2: seq<nat>)
    requires IsWithout(n, c, rank, roots, v, taken, n2, c2)
    ensures v < |n| == |n2| == |c| == |c2| == |rank| && InRange(n, ToVector(taken)) && taken <= n[v].children
    ensures n2[v] == n[v].(children := n[v].children - taken) && c[v] > 0 && c2[v] > 0
    ensures WellFormed(n, c, rank, roots) && Acyclic(n, rank)
  {
    WithoutFacts(n, c, rank, roots, v, taken, n2, c2);
  }

  lemma FilledSets(cost: CostModel, n: seq<EntryNode>, c: seq<nat>, rank: seq<nat>, roots: set<nat>, v: nat,
                   r: SubsumptionResult, n2: seq<EntryNode>, c2: seq<nat>, sets: SubsetDefinition)
    requires Acyclic(n, rank) && v < |n| == |c| && n[v].mode == AND && r.subsumedChildren != {} && v < |n2|
    requires FromChoice(cost, n, c, rank, v, r) && IsWithout(n, c, rank, roots, v, r.subsumedChildren, n2, c2)
    requires WellFormed(n, c, rank, roots)
    requires sets == SubsetDefinition(if r.codepoints.Some? then r.codepoints.value else n2[v].sets.codepoints,
                                      if r.features.Some? then r.features.value else n2[v].sets.features,
                                      if r.space.Some? then r.space.value else n2[v].sets.space)
    ensures Rewrites(n, c, rank, roots, n2[v := n2[v].(sets := sets)], c2, rank)
    ensures Costs(cost, n, c, r.costDelta, n2[v := n2[v].(sets := sets)], c2)
  {
    hide WellFormed, Consistent, IsWithout, Freed, LiveCost, Summary, Eval, Rewrites, ToVector, InRange, Costs, Acyclic;
    var choice :| IsChoiceResult(cost, n, c, rank, v, choice, r);
    var m := n2[v].(sets := sets);
    WithoutShape(n, c, rank, roots, v, r.subsumedChildren, n2, c2);
    ChoiceRewrites(n, c, rank, roots, v, choice, n2, c2, m);
    ReplacedCost(cost, n, c, rank, roots, v, r.subsumedChildren, n2, c2, m);
    assert NodeCost(cost, m) == cost(sets, true, |n[v].children - choice.Ids()|);
  }

  /** What a disjunctive result that changes anything says. */
  lemma DisjunctiveFacts(cost: CostModel, n: seq<EntryNode>, c: seq<nat>, rank: seq<nat>, roots: set<nat>, v: nat, r: SubsumptionResult)
    requires Acyclic(n, rank) && v < |n| == |c| && WellFormed(n, c, rank, roots)
    requires DisjunctiveResult(cost, n, c, rank, v, r) && r.subsumedChildren != {}
    ensures r.subsumedChildren == n[v].children && Summary(n, rank, v).Some?
    ensures r.codepoints == Opt(Summary(n, rank, v).value.codepoints, {})
    ensures r.features == Opt(Summary(n, rank, v).value.features, {})
    ensures r.space == Opt(Summary(n, rank, v).value.space, map[])
    ensures InRange(n, ToVector(n[v].children))
    ensures r.costDelta == SummaryCost(cost, Summary(n, rank, v).value) - NodeCost(cost, n[v]) - Freed(cost, n, c, n[v].children)
    ensures !Summary(n, rank, v).value.Empty() && |rank| == |n| && rank[v] > 0
  {
    assert LeavesOk(n, v);
    SummaryMeaning(n, rank, v, NOTHING);
    RankPositive(n, c, rank, roots, v);
  }

  lemma BecomesLeaf(cost: CostModel, n: seq<EntryNode>, c: seq<nat>, rank: seq<nat>, roots: set<nat>, v: nat, r: SubsumptionResult,
                    n2: seq<EntryNode>, c2: seq<nat>, m: EntryNode)
    requires Acyclic(n, rank) && v < |n| == |c| && WellFormed(n, c, rank, roots) && v < |n2|
    requires DisjunctiveResult(cost, n, c, rank, v, r) && r.subsumedChildren != {}
    requires IsWithout(n, c, rank, roots, v, r.subsumedChildren, n2, c2)
    requires m.children == n2[v].children && m.mode == NONE && Summary(n, rank, v).Some? && m.sets == Summary(n, rank, v).value
    requires m.sets.NonEmptySets() <= 1
    ensures Rewrites(n, c, rank, roots, n2[v := m], c2, rank)
    ensures Costs(cost, n, c, r.costDelta, n2[v := m], c2)
  {
    hide WellFormed, Consistent, IsWithout, Freed, LiveCost, Summary, Eval, Rewrites, ToVector, InRange, Costs, Acyclic,
         DisjunctiveResult, SubsetDefinition.NonEmptySets;
    DisjunctiveFacts(cost, n, c, rank, roots, v, r);
    WithoutShape(n, c, rank, roots, v, r.subsumedChildren, n2, c2);
    LeafRewrites(n, c, rank, roots, v, n2, c2, m);
    ReplacedCost(cost, n, c, rank, roots, v, r.subsumedChildren, n2, c2, m);
    assert NodeCost(cost, m) == SummaryCost(cost, m.sets);
  }

  /** What growing leaves costs. */
  ghost predicate GrownCost(cost: CostModel, n2: seq<EntryNode>, c2: seq<nat>, v: nat, parts: seq<SubsetDefinition>,
                            nodes: seq<EntryNode>, counts: seq<nat>)
  {
    && |n2| == |c2| && |nodes| == |counts| && v < |n2| && v < |nodes|
    && LiveCost(cost, nodes, counts) + NodeCost(cost, n2[v])
       == LiveCost(cost, n2, c2) + NodeCost(cost, nodes[v]) + PartsCost(cost, parts)
  }

  lemma GrownCostStart(cost: CostModel, n2: seq<EntryNode>, c2: seq<nat>, v: nat, m: EntryNode)
    requires v < |n2| == |c2| && c2[v] > 0
    ensures GrownCost(cost, n2, c2, v, [], n2[v := m], c2)
  {
    LiveCostUpdate(cost, n2, c2, v, m, c2[v]);
    assert c2[v := c2[v]] == c2;
  }

  lemma GrownCostNext(cost: CostModel, n2: seq<EntryNode>, c2: seq<nat>, v: nat, parts: seq<SubsetDefinition>,
                      nodes: seq<EntryNode>, counts: seq<nat>, part: SubsetDefinition, ci: nat)
    requires v < |nodes| == |counts| && counts[v] > 0 && GrownCost(cost, n2, c2, v, parts, nodes, counts)
    ensures var m := nodes[v].(children := nodes[v].children + {|nodes|});
            GrownCost(cost, n2, c2, v, parts + [part], nodes[v := m] + [EntryNode(part, NONE, {}, ci)], counts + [1])
  {
    hide LiveCost, NodeCost;
    GrowCost(cost, nodes, counts, v, part, ci);
    assert (parts + [part])[..|parts|] == parts;
  }

  lemma BecomesParent(cost: CostModel, n: seq<EntryNode>, c: seq<nat>, rank: seq<nat>, roots: set<nat>, v: nat, r: SubsumptionResult,
                      n2: seq<EntryNode>, c2: seq<nat>, parts: seq<SubsetDefinition>, nodes: seq<EntryNode>, counts: seq<nat>, rank': seq<nat>)
    requires Acyclic(n, rank) && v < |n| == |c| && WellFormed(n, c, rank, roots)
    requires DisjunctiveResult(cost, n, c, rank, v, r) && r.subsumedChildren != {}
    requires IsWithout(n, c, rank, roots, v, r.subsumedChildren, n2, c2)
    requires Grown(n2, c2, rank, roots, v, parts, nodes, counts, rank') && GrownCost(cost, n2, c2, v, parts, nodes, counts)
    requires Summary(n, rank, v).Some? && parts == Parts(Summary(n, rank, v).value) && |parts| >= 2
    ensures Rewrites(n, c, rank, roots, nodes, counts, rank')
    ensures Costs(cost, n, c, r.costDelta, nodes, counts)
  {
    hide WellFormed, Consistent, IsWithout, Freed, LiveCost, Summary, Eval, Rewrites, ToVector, InRange, Acyclic,
         DisjunctiveResult, LeavesOf, Parts, PartsCost, SubsetDefinition.NonEmptySets;
    DisjunctiveFacts(cost, n, c, rank, roots, v, r);
    WithoutShape(n, c, rank, roots, v, r.subsumedChildren, n2, c2);
    GrownRewrites(n, c, rank, roots, v, n2, c2, parts, nodes, counts, rank');
    ReplacedCost(cost, n, c, rank, roots, v, r.subsumedChildren, n2, c2, n2[v]);
    assert n2[v := n2[v]] == n2;
    assert NodeCost(cost, nodes[v]) == cost(NOTHING, false, |parts|);
  }
}
