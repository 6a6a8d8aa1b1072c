/** What every entry graph keeps, and why subsuming children into a node keeps it and the meaning of every node. */
module EntryGraphs {
  import opened IntSets
  import opened SubsetDefinitions
  import opened EntryNodes

  /** Edges point down, counts are exact, freed nodes are clear. */
  ghost predicate Consistent(nodes: seq<EntryNode>, counts: seq<nat>, rank: seq<nat>, roots: set<nat>, pending: multiset<nat>) {
    && Acyclic(nodes, rank)
    && CountsExact(nodes, counts, roots, pending)
    && (forall x :: 0 <= x < |nodes| && counts[x] == 0 ==> nodes[x] == EMPTY_NODE)
    && (forall x :: x in roots ==> x < |nodes|)
  }

  /** A leaf below x has a local set: without one it would match everything. */
  ghost predicate LeavesHaveSets(nodes: seq<EntryNode>, x: nat)
    requires x < |nodes|
  {
    forall c :: c in nodes[x].children && c < |nodes| && nodes[c].children == {} ==> !nodes[c].sets.Empty()
  }

  const MAX_CHILDREN: nat := 127

  ghost predicate WellFormed(nodes: seq<EntryNode>, counts: seq<nat>, rank: seq<nat>, roots: set<nat>) {
    && Consistent(nodes, counts, rank, roots, multiset{})
    && forall x :: 0 <= x < |nodes| ==> LeavesHaveSets(nodes, x) && |nodes[x].children| <= MAX_CHILDREN
  }

  /** Nodes with children, and their children, are live. */
  lemma ParentsAreLive(nodes: seq<EntryNode>, counts: seq<nat>, rank: seq<nat>, roots: set<nat>, pending: multiset<nat>, x: nat)
    requires Consistent(nodes, counts, rank, roots, pending) && x < |nodes|
    ensures nodes[x].children != {} ==> counts[x] > 0
    ensures forall c :: c in nodes[x].children ==> c < |nodes| && counts[c] > 0
  {
    forall c | c in nodes[x].children ensures c < |nodes| && counts[c] > 0 {
      InDegreePositive(nodes, counts, x, c);
    }
  }

  // ---------- taking children away ----------

  ghost function Detached(nodes: seq<EntryNode>, v: nat, taken: set<nat>): (r: seq<EntryNode>)
    requires v < |nodes|
    ensures |r| == |nodes|
  {
    nodes[v := nodes[v].(children := nodes[v].children - taken)]
  }

  lemma DetachedAcyclic(nodes: seq<EntryNode>, rank: seq<nat>, v: nat, taken: set<nat>)
    requires Acyclic(nodes, rank) && v < |nodes| && taken <= nodes[v].children
    ensures Acyclic(Detached(nodes, v, taken), rank)
    ensures InRange(nodes, ToVector(taken)) && InRange(Detached(nodes, v, taken), ToVector(taken))
    ensures Below(rank, ToVector(taken), rank[v])
  {
    var n1, w := Detached(nodes, v, taken), ToVector(taken);
    assert forall k :: 0 <= k < |w| ==> w[k] in w;
    hide ToVector;
    assert Acyclic(n1, rank) by {
      forall x, c | 0 <= x < |n1| && c in n1[x].children ensures c < |n1| && rank[c] < rank[x] {
        assert c in nodes[x].children;
      }
    }
    forall k | 0 <= k < |w| ensures w[k] < |rank| && rank[w[k]] < rank[v] {
      assert w[k] in nodes[v].children;
    }
  }

  lemma DetachedCounts(nodes: seq<EntryNode>, counts: seq<nat>, rank: seq<nat>, roots: set<nat>, v: nat, taken: set<nat>)
    requires Consistent(nodes, counts, rank, roots, multiset{}) && v < |nodes| && taken <= nodes[v].children
    ensures Acyclic(Detached(nodes, v, taken), rank)
    ensures InRange(nodes, ToVector(taken)) && InRange(Detached(nodes, v, taken), ToVector(taken))
    ensures CountsExact(Detached(nodes, v, taken), counts, roots, multiset(ToVector(taken)))
    ensures Below(rank, ToVector(taken), rank[v])
  {
    hide ToVector, InDegree, InRange, Below;
    var n1 := Detached(nodes, v, taken);
    DetachedAcyclic(nodes, rank, v, taken);
    ParentsAreLive(nodes, counts, rank, roots, multiset{}, v);
    forall x: nat | x < |nodes|
      ensures counts[x] == InDegree(n1, counts, x) + (if x in roots then 1 else 0) + multiset(ToVector(taken))[x]
    {
      InDegreeUpdate(nodes, counts, v, n1[v], counts[v], x);
      assert counts[v := counts[v]] == counts;
      Occurrences(taken, x);
    }
  }

  /** The counts and the nodes after the children `taken` are taken from v. */
  ghost function CountsWithout(nodes: seq<EntryNode>, counts: seq<nat>, taken: set<nat>): (r: seq<nat>)
    requires |nodes| == |counts| && InRange(nodes, ToVector(taken))
    ensures |r| == |counts|
  {
    Drop(nodes, counts, ToVector(taken))
  }

  ghost function NodesWithout(nodes: seq<EntryNode>, counts: seq<nat>, v: nat, taken: set<nat>): (r: seq<EntryNode>)
    requires |nodes| == |counts| && InRange(nodes, ToVector(taken)) && v < |nodes|
    ensures |r| == |nodes|
  {
    Cleared(Detached(nodes, v, taken), counts, CountsWithout(nodes, counts, taken))
  }

  lemma DropAcrossDetach(nodes: seq<EntryNode>, counts: seq<nat>, rank: seq<nat>, roots: set<nat>, v: nat, taken: set<nat>)
    requires Consistent(nodes, counts, rank, roots, multiset{}) && v < |nodes| && counts[v] > 0 && taken <= nodes[v].children
    ensures InRange(nodes, ToVector(taken)) && InRange(Detached(nodes, v, taken), ToVector(taken))
    ensures Drop(Detached(nodes, v, taken), counts, ToVector(taken)) == CountsWithout(nodes, counts, taken)
    ensures CountsWithout(nodes, counts, taken)[v] == counts[v]
    ensures forall x :: 0 <= x < |counts| ==> CountsWithout(nodes, counts, taken)[x] <= counts[x]
  {
    DetachedCounts(nodes, counts, rank, roots, v, taken);
    DropKeepsAbove(nodes, rank, counts, ToVector(taken), rank[v]);
    DropLowers(nodes, counts, ToVector(taken));
    DropFrame(nodes, Detached(nodes, v, taken), counts, ToVector(taken));
  }

  /** Taking children away frees what nothing else leads to; all else is as it was. */
  lemma TakeChildren(nodes: seq<EntryNode>, counts: seq<nat>, rank: seq<nat>, roots: set<nat>, v: nat, taken: set<nat>)
    requires Consistent(nodes, counts, rank, roots, multiset{}) && v < |nodes| && counts[v] > 0 && taken <= nodes[v].children
    ensures InRange(nodes, ToVector(taken))
    ensures var counts', nodes' := CountsWithout(nodes, counts, taken), NodesWithout(nodes, counts, v, taken);
            && Consistent(nodes', counts', rank, roots, multiset{})
            && counts'[v] == counts[v] && nodes'[v] == Detached(nodes, v, taken)[v]
            && (forall x :: 0 <= x < |nodes| && x != v && counts'[x] > 0 ==> nodes'[x] == nodes[x])
            && (forall x :: 0 <= x < |nodes| ==> counts'[x] <= counts[x])
            && (forall x :: 0 <= x < |nodes| ==> nodes'[x] == Detached(nodes, v, taken)[x] || nodes'[x] == EMPTY_NODE)
  {
    var n1, w := Detached(nodes, v, taken), ToVector(taken);
    DetachedCounts(nodes, counts, rank, roots, v, taken);
    DropAcrossDetach(nodes, counts, rank, roots, v, taken);
    hide Drop, ToVector, InRange, Acyclic, CountsExact;
    DropStaysExact(n1, counts, roots, w);
    ClearingIsConsistent(n1, counts, CountsWithout(nodes, counts, taken), rank, roots);
  }

  lemma ClearingIsConsistent(nodes: seq<EntryNode>, counts: seq<nat>, counts': seq<nat>, rank: seq<nat>, roots: set<nat>)
    requires |counts| == |nodes| && Acyclic(nodes, rank) && CountsExact(nodes, counts', roots, multiset{})
    requires forall x :: 0 <= x < |nodes| && counts[x] == 0 ==> nodes[x] == EMPTY_NODE
    requires forall x :: x in roots ==> x < |nodes|
    requires forall x :: 0 <= x < |nodes| ==> counts'[x] <= counts[x]
    ensures Consistent(Cleared(nodes, counts, counts'), counts', rank, roots, multiset{})
  {
    var nodes' := Cleared(nodes, counts, counts');
    forall x: nat | x < |nodes| ensures counts'[x] == InDegree(nodes', counts', x) + (if x in roots then 1 else 0) {
      InDegreeSame(nodes, counts', nodes', counts', x);
    }
    assert Acyclic(nodes', rank) by {
      forall x, c | 0 <= x < |nodes'| && c in nodes'[x].children ensures c < |nodes'| && rank[c] < rank[x] {
        assert c in nodes[x].children;
      }
    }
  }

  // ---------- replacing the node ----------

  /** Giving v other local sets or another mode keeps the graph consistent. */
  lemma ReplaceSets(nodes: seq<EntryNode>, counts: seq<nat>, rank: seq<nat>, roots: set<nat>, pending: multiset<nat>, v: nat, m: EntryNode)
    requires Consistent(nodes, counts, rank, roots, pending) && v < |nodes| && counts[v] > 0
    requires m.children == nodes[v].children
    ensures Consistent(nodes[v := m], counts, rank, roots, pending)
  {
    var nodes' := nodes[v := m];
    forall x: nat | x < |nodes| ensures InDegree(nodes', counts, x) == InDegree(nodes, counts, x) {
      InDegreeSame(nodes', counts, nodes, counts, x);
    }
  }

  /** Adding a leaf below v. */
  lemma AddLeaf(nodes: seq<EntryNode>, counts: seq<nat>, rank: seq<nat>, roots: set<nat>, v: nat, leaf: EntryNode)
    requires Consistent(nodes, counts, rank, roots, multiset{}) && v < |nodes| && counts[v] > 0 && rank[v] > 0
    requires leaf.children == {}
    ensures var m := nodes[v].(children := nodes[v].children + {|nodes|});
            Consistent(nodes[v := m] + [leaf], counts + [1], rank + [0], roots, multiset{})
  {
    var id := |nodes|;
    var m := nodes[v].(children := nodes[v].children + {id});
    var nodes', counts', rank' := nodes[v := m] + [leaf], counts + [1], rank + [0];
    forall x: nat | x < |nodes'| ensures counts'[x] == InDegree(nodes', counts', x) + (if x in roots then 1 else 0) {
      assert nodes'[..id] == nodes[v := m] && counts'[..id] == counts == counts[v := counts[v]];
      InDegreeUpdate(nodes, counts, v, m, counts[v], x);
      if x == id {
        InDegreeZero(nodes, counts, x);
      }
    }
    forall x, c | 0 <= x < |nodes'| && c in nodes'[x].children ensures c < |nodes'| && rank'[c] < rank'[x] {
      if x < id && c < id {
        assert c in nodes[x].children;
      } else if x < id {
        assert x == v;
      }
    }
  }

  ghost function Live(counts: seq<nat>): set<nat> {
    set x: nat | x < |counts| && counts[x] > 0
  }

  /** Where nothing but v changed among the live nodes, and v means what it meant, every live node means what it meant. */
  lemma MeaningKept(nodes: seq<EntryNode>, rank: seq<nat>, nodes': seq<EntryNode>, rank': seq<nat>, counts': seq<nat>,
                    roots: set<nat>, v: nat, x: nat, input: SubsetDefinition)
    requires Acyclic(nodes, rank) && |nodes| <= |nodes'| && Consistent(nodes', counts', rank', roots, multiset{})
    requires forall y :: 0 <= y < |nodes| && y != v && counts'[y] > 0 ==> nodes'[y] == nodes[y]
    requires v < |nodes| && x < |nodes| && counts'[x] > 0
    requires Eval(nodes, rank, v, input) == Eval(nodes', rank', v, input)
    ensures Eval(nodes, rank, x, input) == Eval(nodes', rank', x, input)
  {
    var L := set y: nat | y < |nodes| && counts'[y] > 0;
    forall y | y in L && y != v ensures SameMeaning(nodes[y], nodes'[y]) && nodes[y].children <= L {
      ParentsAreLive(nodes', counts', rank', roots, multiset{}, y);
      assert forall c :: c in nodes[y].children ==> c < |nodes|;
    }
    EvalFrame(nodes, rank, nodes', rank', L, v, x, input);
  }

  /** Below v, taking children from v changes the meaning of no live node. */
  lemma MeaningBelow(nodes: seq<EntryNode>, rank: seq<nat>, nodes': seq<EntryNode>, rank': seq<nat>, counts': seq<nat>,
                     roots: set<nat>, v: nat, x: nat, input: SubsetDefinition)
    requires Acyclic(nodes, rank) && |nodes| <= |nodes'| && Consistent(nodes', counts', rank', roots, multiset{})
    requires forall y :: 0 <= y < |nodes| && y != v && counts'[y] > 0 ==> nodes'[y] == nodes[y]
    requires v < |nodes| && x < |nodes| && counts'[x] > 0 && rank[x] < rank[v]
    ensures Eval(nodes, rank, x, input) == Eval(nodes', rank', x, input)
  {
    var L := set y: nat | y < |nodes| && counts'[y] > 0 && rank[y] < rank[v];
    forall y | y in L ensures SameMeaning(nodes[y], nodes'[y]) && nodes[y].children <= L {
      ParentsAreLive(nodes', counts', rank', roots, multiset{}, y);
      assert forall c :: c in nodes[y].children ==> c < |nodes|;
    }
    EvalFrame(nodes, rank, nodes', rank', L, -1, x, input);
  }
}
