/** Giving a node its children: more than 127 of them go into a chain of nodes, 126 at a time. */
module EntryLinking {
  import opened IntSets
  import opened SubsetDefinitions
  import opened SegmentGroups
  import opened EntryNodes
  import opened EntryGraphs
  import opened EntrySubsumption
  import opened EntryBuilding

  const CHUNK: nat := 126

  ghost predicate Distinct(ids: seq<nat>) {
    forall i, j :: 0 <= i < j < |ids| ==> ids[i] != ids[j]
  }

  lemma {:induction false} OccursOnce(ids: seq<nat>, x: nat)
    requires Distinct(ids)
    ensures multiset(ids)[x] == if x in ids then 1 else 0
  {
    if ids != [] {
      var n := |ids| - 1;
      assert ids == ids[..n] + [ids[n]];
      OccursOnce(ids[..n], x);
      if x == ids[n] { assert x !in ids[..n]; }
    }
  }

  lemma {:induction false} SetSize(ids: seq<nat>)
    ensures |ToSet(ids)| <= |ids|
  {
    if ids == [] {
      assert ToSet(ids) == {};
    } else {
      var n := |ids| - 1;
      SetSize(ids[..n]);
      assert ToSet(ids) == ToSet(ids[..n]) + {ids[n]};
    }
  }

  // ---------- edges ----------

  ghost function Linked(nodes: seq<EntryNode>, v: nat, ids: seq<nat>): (r: seq<EntryNode>)
    requires v < |nodes|
    ensures |r| == |nodes|
  {
    nodes[v := nodes[v].(children := nodes[v].children + ToSet(ids))]
  }

  /** Promised edges become edges. */
  lemma LinkConsistent(nodes: seq<EntryNode>, counts: seq<nat>, rank: seq<nat>, roots: set<nat>, pending: multiset<nat>, v: nat, ids: seq<nat>)
    requires Consistent(nodes, counts, rank, roots, pending + multiset(ids)) && v < |nodes| == |counts| == |rank| && counts[v] > 0
    requires Distinct(ids) && forall i :: 0 <= i < |ids| ==> ids[i] < |nodes| && rank[ids[i]] < rank[v] && ids[i] !in nodes[v].children
    ensures Consistent(Linked(nodes, v, ids), counts, rank, roots, pending)
  {
    var nodes' := Linked(nodes, v, ids);
    hide InDegree;
    forall x: nat | x < |nodes|
      ensures counts[x] == InDegree(nodes', counts, x) + (if x in roots then 1 else 0) + pending[x]
    {
      InDegreeUpdate(nodes, counts, v, nodes'[v], counts[v], x);
      assert counts[v := counts[v]] == counts;
      OccursOnce(ids, x);
    }
    assert Acyclic(nodes', rank) by {
      forall x, c | 0 <= x < |nodes'| && c in nodes'[x].children ensures c < |nodes'| && rank[c] < rank[x] {
        assert c in nodes[x].children || (x == v && c in ids);
      }
    }
  }

  // ---------- the chain ----------

  /** The j-th node of the chain that starts at v and goes on with the new nodes from `base` on. */
  function Link(v: nat, base: nat, j: nat): nat {
    if j == 0 then v else base + j - 1
  }

  /** What the chain and the graph around it look like after m links have been filled. */
  ghost predicate Chain(g: Graph, v: nat, mode: ChildMode, ids: seq<nat>, bound: nat, m: nat,
                        nodes: seq<EntryNode>, counts: seq<nat>, rank: seq<nat>)
  {
    && v < |g.nodes| == |g.counts| == |g.rank| && CHUNK * m <= |ids| && |nodes| == |counts| == |rank| == |g.nodes| + m
    && (forall x :: 0 <= x < |g.nodes| && x != v ==> nodes[x] == g.nodes[x] && rank[x] == g.rank[x])
    && (forall x :: 0 <= x < |g.nodes| ==> counts[x] == g.counts[x])
    && (forall x :: |g.nodes| <= x < |nodes| ==> counts[x] == 1)
    && (forall j :: 0 <= j <= m ==>
          var l := Link(v, |g.nodes|, j);
          nodes[l].mode == mode && nodes[l].sets == NOTHING && rank[l] == bound + |ids| - CHUNK * j)
    && (forall j :: 0 <= j < m ==>
          nodes[Link(v, |g.nodes|, j)].children == ToSet(ids[CHUNK * j..CHUNK * (j + 1)]) + {Link(v, |g.nodes|, j + 1)})
    && NoParents(nodes, v)
  }

  /** The children are other nodes, of rank below the bound. */
  ghost predicate Linkable(g: Graph, v: nat, ids: seq<nat>, bound: nat) {
    && |g.nodes| == |g.rank| && Distinct(ids)
    && forall i :: 0 <= i < |ids| ==> ids[i] < |g.nodes| && ids[i] != v && g.rank[ids[i]] < bound
  }

  lemma ChainStart(g: Graph, v: nat, mode: ChildMode, ids: seq<nat>, bound: nat, pending: multiset<nat>)
    requires Core(g, pending) && v < |g.nodes| && NoParents(g.nodes, v) && g.nodes[v].mode == mode && g.nodes[v].sets == NOTHING
    requires |g.rank| == |g.nodes| && g.rank[v] <= bound + |ids|
    ensures Chain(g, v, mode, ids, bound, 0, g.nodes, g.counts, g.rank[v := bound + |ids|])
    ensures Consistent(g.nodes, g.counts, g.rank[v := bound + |ids|], g.roots, pending)
  {
    RaiseRank(g.nodes, g.counts, g.rank, g.roots, pending, v, bound + |ids|);
  }

  /** The next chunk: 126 children and a new node for the others. */
  lemma ChainNext(g: Graph, v: nat, mode: ChildMode, ids: seq<nat>, bound: nat, m: nat, pending: multiset<nat>,
                  nodes: seq<EntryNode>, counts: seq<nat>, rank: seq<nat>, node: EntryNode)
    requires Chain(g, v, mode, ids, bound, m, nodes, counts, rank) && Linkable(g, v, ids, bound)
    requires Consistent(nodes, counts, rank, g.roots, pending + multiset(ids[CHUNK * m..])) && CHUNK * (m + 1) < |ids|
    requires nodes[Link(v, |g.nodes|, m)].children == {} && (forall x :: x in pending ==> x < |g.nodes|) && counts[Link(v, |g.nodes|, m)] > 0
    requires node.children == {} && node.sets == NOTHING && node.mode == mode
    ensures var cur, chunk, next := Link(v, |g.nodes|, m), ids[CHUNK * m..CHUNK * (m + 1)], |nodes|;
            var nodes1 := Linked(nodes, cur, chunk) + [node];
            var nodes' := nodes1[cur := nodes1[cur].(children := nodes1[cur].children + {next})];
            var counts', rank' := counts + [1], rank + [bound + |ids| - CHUNK * (m + 1)];
            && Chain(g, v, mode, ids, bound, m + 1, nodes', counts', rank')
            && Consistent(nodes', counts', rank', g.roots, pending + multiset(ids[CHUNK * (m + 1)..]))
            && nodes'[next].children == {}
  {
    hide Consistent, ToSet;
    var cur := Link(v, |g.nodes|, m);
    var chunk: seq<nat> := ids[CHUNK * m..CHUNK * (m + 1)];
    ChunkConsistent(g, v, mode, ids, bound, m, pending, nodes, counts, rank);
    ChainGrows(g, v, mode, ids, bound, m, nodes, counts, rank, node);
    assert rank[cur] == bound + |ids| - CHUNK * m;
    assert |nodes| !in ids[CHUNK * (m + 1)..] by {
      assert forall x :: x in ids[CHUNK * (m + 1)..] ==> x in ids;
    }
    hide Chain, Linkable;
    NextConsistent(Linked(nodes, cur, chunk), counts, rank, g.roots, pending + multiset(ids[CHUNK * (m + 1)..]), cur, node,
                   bound + |ids| - CHUNK * (m + 1));
  }

  lemma NextConsistent(nodes: seq<EntryNode>, counts: seq<nat>, rank: seq<nat>, roots: set<nat>, pending: multiset<nat>, cur: nat,
                       node: EntryNode, r: nat)
    requires Consistent(nodes, counts, rank, roots, pending) && cur < |nodes| == |counts| == |rank| && counts[cur] > 0
    requires r < rank[cur] && node.children == {} && |nodes| !in pending
    ensures var nodes1 := nodes + [node];
            Consistent(nodes1[cur := nodes1[cur].(children := nodes1[cur].children + {|nodes|})], counts + [1], rank + [r], roots, pending)
  {
    var next: nat := |nodes|;
    assert forall c :: c in nodes[cur].children ==> c < |nodes|;
    hide Consistent;
    AddNode(nodes, counts, rank, roots, pending, node, r);
    assert multiset([next]) == multiset{next};
    assert ToSet([next]) == {next};
    LinkConsistent(nodes + [node], counts + [1], rank + [r], roots, pending, cur, [next]);
  }

  lemma ChunkConsistent(g: Graph, v: nat, mode: ChildMode, ids: seq<nat>, bound: nat, m: nat, pending: multiset<nat>,
                        nodes: seq<EntryNode>, counts: seq<nat>, rank: seq<nat>)
    requires Chain(g, v, mode, ids, bound, m, nodes, counts, rank) && Linkable(g, v, ids, bound)
    requires Consistent(nodes, counts, rank, g.roots, pending + multiset(ids[CHUNK * m..])) && CHUNK * (m + 1) < |ids|
    requires nodes[Link(v, |g.nodes|, m)].children == {} && counts[Link(v, |g.nodes|, m)] > 0
    ensures Consistent(Linked(nodes, Link(v, |g.nodes|, m), ids[CHUNK * m..CHUNK * (m + 1)]), counts, rank, g.roots,
                       pending + multiset(ids[CHUNK * (m + 1)..]))
  {
    hide Consistent;
    var cur := Link(v, |g.nodes|, m);
    var chunk: seq<nat>, rest: seq<nat> := ids[CHUNK * m..CHUNK * (m + 1)], ids[CHUNK * (m + 1)..];
    assert ids[CHUNK * m..] == chunk + rest;
    assert pending + multiset(ids[CHUNK * m..]) == pending + multiset(rest) + multiset(chunk);
    assert rank[cur] == bound + |ids| - CHUNK * m;
    forall i | 0 <= i < |chunk| ensures chunk[i] < |nodes| && rank[chunk[i]] < rank[cur] && chunk[i] !in nodes[cur].children {
      assert chunk[i] == ids[CHUNK * m + i];
    }
    assert Distinct(chunk) by {
      forall i, j | 0 <= i < j < |chunk| ensures chunk[i] != chunk[j] {
        assert chunk[i] == ids[CHUNK * m + i] && chunk[j] == ids[CHUNK * m + j];
      }
    }
    LinkConsistent(nodes, counts, rank, g.roots, pending + multiset(rest), cur, chunk);
  }

  lemma ChainGrows(g: Graph, v: nat, mode: ChildMode, ids: seq<nat>, bound: nat, m: nat,
                   nodes: seq<EntryNode>, counts: seq<nat>, rank: seq<nat>, node: EntryNode)
    requires Chain(g, v, mode, ids, bound, m, nodes, counts, rank) && Linkable(g, v, ids, bound) && CHUNK * (m + 1) < |ids|
    requires nodes[Link(v, |g.nodes|, m)].children == {}
    requires node.children == {} && node.sets == NOTHING && node.mode == mode
    ensures var cur, chunk, next := Link(v, |g.nodes|, m), ids[CHUNK * m..CHUNK * (m + 1)], |nodes|;
            var nodes1 := Linked(nodes, cur, chunk) + [node];
            Chain(g, v, mode, ids, bound, m + 1, nodes1[cur := nodes1[cur].(children := nodes1[cur].children + {next})],
                  counts + [1], rank + [bound + |ids| - CHUNK * (m + 1)])
  {
    var cur, chunk, next := Link(v, |g.nodes|, m), ids[CHUNK * m..CHUNK * (m + 1)], |nodes|;
    var nodes1 := Linked(nodes, cur, chunk) + [node];
    var nodes' := nodes1[cur := nodes1[cur].(children := nodes1[cur].children + {next})];
    hide ToSet;
    assert nodes'[cur].children == ToSet(chunk) + {next};
    forall j | 0 <= j <= m ensures Link(v, |g.nodes|, j) < next && (j < m ==> Link(v, |g.nodes|, j) != cur) {
    }
    forall j | 0 <= j < m + 1
      ensures nodes'[Link(v, |g.nodes|, j)].children == ToSet(ids[CHUNK * j..CHUNK * (j + 1)]) + {Link(v, |g.nodes|, j + 1)}
    {
    }
    NoParentsKept(nodes, nodes', v, cur, chunk);
  }

  lemma NoParentsKept(nodes: seq<EntryNode>, nodes': seq<EntryNode>, v: nat, cur: nat, chunk: seq<nat>)
    requires NoParents(nodes, v) && cur < |nodes| && |nodes'| == |nodes| + 1 && v < |nodes|
    requires forall x :: 0 <= x < |nodes| && x != cur ==> nodes'[x] == nodes[x]
    requires nodes'[cur].children <= nodes[cur].children + ToSet(chunk) + {|nodes|} && nodes'[|nodes|].children == {}
    requires forall i :: 0 <= i < |chunk| ==> chunk[i] != v
    ensures NoParents(nodes', v)
  {
  }

  /** The whole chain: its last node has the children that are left. */
  ghost predicate Chained(g: Graph, v: nat, mode: ChildMode, ids: seq<nat>, bound: nat, m: nat,
                          nodes: seq<EntryNode>, counts: seq<nat>, rank: seq<nat>)
  {
    && Chain(g, v, mode, ids, bound, m, nodes, counts, rank)
    && |ids| - CHUNK * m <= MAX_CHILDREN && (m > 0 ==> CHUNK * m < |ids|)
    && nodes[Link(v, |g.nodes|, m)].children == ToSet(ids[CHUNK * m..])
  }

  lemma ChainEnd(g: Graph, v: nat, mode: ChildMode, ids: seq<nat>, bound: nat, m: nat, pending: multiset<nat>,
                 nodes: seq<EntryNode>, counts: seq<nat>, rank: seq<nat>)
    requires Chain(g, v, mode, ids, bound, m, nodes, counts, rank) && Linkable(g, v, ids, bound)
    requires Consistent(nodes, counts, rank, g.roots, pending + multiset(ids[CHUNK * m..]))
    requires |ids| - CHUNK * m <= MAX_CHILDREN && (m > 0 ==> CHUNK * m < |ids|)
    requires nodes[Link(v, |g.nodes|, m)].children == {} && counts[Link(v, |g.nodes|, m)] > 0
    ensures var nodes' := Linked(nodes, Link(v, |g.nodes|, m), ids[CHUNK * m..]);
            && Chained(g, v, mode, ids, bound, m, nodes', counts, rank)
            && Consistent(nodes', counts, rank, g.roots, pending)
  {
    hide Consistent, ToSet;
    var cur := Link(v, |g.nodes|, m);
    var rest: seq<nat> := ids[CHUNK * m..];
    assert rank[cur] == bound + |ids| - CHUNK * m;
    forall i | 0 <= i < |rest| ensures rest[i] < |nodes| && rank[rest[i]] < rank[cur] && rest[i] !in nodes[cur].children {
      assert rest[i] == ids[CHUNK * m + i];
    }
    assert Distinct(rest) by {
      forall i, j | 0 <= i < j < |rest| ensures rest[i] != rest[j] {
        assert rest[i] == ids[CHUNK * m + i] && rest[j] == ids[CHUNK * m + j];
      }
    }
    LinkConsistent(nodes, counts, rank, g.roots, pending, cur, rest);
    assert forall j :: 0 <= j < m ==> Link(v, |g.nodes|, j) != cur;
    assert {} + ToSet(rest) == ToSet(rest);
    NoParentsLinked(nodes, v, cur, rest);
  }

  lemma NoParentsLinked(nodes: seq<EntryNode>, v: nat, cur: nat, rest: seq<nat>)
    requires NoParents(nodes, v) && cur < |nodes| && forall i :: 0 <= i < |rest| ==> rest[i] != v
    ensures NoParents(Linked(nodes, cur, rest), v)
  {
  }

  // ---------- what the chain means ----------

  ghost predicate AllFrom(nodes: seq<EntryNode>, rank: seq<nat>, ids: seq<nat>, lo: nat, input: SubsetDefinition)
    requires Acyclic(nodes, rank) && forall i :: 0 <= i < |ids| ==> ids[i] < |nodes|
  {
    forall i :: lo <= i < |ids| ==> Eval(nodes, rank, ids[i], input)
  }

  ghost predicate SomeFrom(nodes: seq<EntryNode>, rank: seq<nat>, ids: seq<nat>, lo: nat, input: SubsetDefinition)
    requires Acyclic(nodes, rank) && forall i :: 0 <= i < |ids| ==> ids[i] < |nodes|
  {
    exists i :: lo <= i < |ids| && Eval(nodes, rank, ids[i], input)
  }

  lemma InChunk(ids: seq<nat>, lo: nat, hi: nat, c: nat)
    requires lo <= hi <= |ids|
    ensures c in ToSet(ids[lo..hi]) <==> exists i :: lo <= i < hi && ids[i] == c
  {
    if c in ToSet(ids[lo..hi]) {
      var k :| 0 <= k < hi - lo && ids[lo..hi][k] == c;
      assert ids[lo + k] == c;
    }
    if i :| lo <= i < hi && ids[i] == c {
      assert ids[lo..hi][i - lo] == c;
    }
  }

  /** The children that the j-th link takes go up to here. */
  function ChunkEnd(ids: seq<nat>, m: nat, j: nat): (hi: nat)
    requires j <= m && CHUNK * m <= |ids|
    ensures CHUNK * j <= hi <= |ids|
  {
    if j == m then |ids| else CHUNK * (j + 1)
  }

  /** Each link has its chunk of the children, and the next link. */
  lemma LinkShape(g: Graph, v: nat, mode: ChildMode, ids: seq<nat>, bound: nat, m: nat,
                  nodes: seq<EntryNode>, counts: seq<nat>, rank: seq<nat>, j: nat)
    requires Chained(g, v, mode, ids, bound, m, nodes, counts, rank) && j <= m
    ensures CHUNK * m <= |ids| && Link(v, |g.nodes|, j) < |nodes|
    ensures var node := nodes[Link(v, |g.nodes|, j)];
            && node.mode == mode && node.sets == NOTHING
            && node.children == ToSet(ids[CHUNK * j..ChunkEnd(ids, m, j)]) + (if j == m then {} else {Link(v, |g.nodes|, j + 1)})
    ensures ChunkEnd(ids, m, j) - CHUNK * j + (if j == m then 0 else 1) <= MAX_CHILDREN
    ensures ids != [] ==> CHUNK * j < ChunkEnd(ids, m, j)
  {
    if j == m {
      assert ids[CHUNK * m..|ids|] == ids[CHUNK * m..];
    } else {
      assert nodes[Link(v, |g.nodes|, j)].children == ToSet(ids[CHUNK * j..CHUNK * (j + 1)]) + {Link(v, |g.nodes|, j + 1)};
    }
  }

  /** A conjunctive chain matches when all its children from here on do. */
  lemma {:induction false} AndChain(g: Graph, v: nat, ids: seq<nat>, bound: nat, m: nat, nodes: seq<EntryNode>, counts: seq<nat>,
                                    rank: seq<nat>, j: nat, input: SubsetDefinition)
    requires Chained(g, v, AND, ids, bound, m, nodes, counts, rank) && Acyclic(nodes, rank) && j <= m
    requires forall i :: 0 <= i < |ids| ==> ids[i] < |nodes|
    ensures Link(v, |g.nodes|, j) < |nodes|
    ensures Eval(nodes, rank, Link(v, |g.nodes|, j), input) <==> AllFrom(nodes, rank, ids, CHUNK * j, input)
    decreases m - j
  {
    hide Eval, Chained, Link, Acyclic, ToSet;
    LinkShape(g, v, AND, ids, bound, m, nodes, counts, rank, j);
    var l, hi := Link(v, |g.nodes|, j), ChunkEnd(ids, m, j);
    EvalAnd(nodes, rank, l, input);
    forall c: nat ensures c in ToSet(ids[CHUNK * j..hi]) <==> exists i :: CHUNK * j <= i < hi && ids[i] == c {
      InChunk(ids, CHUNK * j, hi, c);
    }
    if j < m {
      AndChain(g, v, ids, bound, m, nodes, counts, rank, j + 1, input);
    }
    AllChildren(nodes, rank, ids, CHUNK * j, hi, nodes[l].children, if j == m then {} else {Link(v, |g.nodes|, j + 1)}, input);
  }

  lemma AllChildren(nodes: seq<EntryNode>, rank: seq<nat>, ids: seq<nat>, lo: nat, hi: nat, children: set<nat>, next: set<nat>,
                    input: SubsetDefinition)
    requires Acyclic(nodes, rank) && (forall i :: 0 <= i < |ids| ==> ids[i] < |nodes|) && lo <= hi <= |ids|
    requires children == ToSet(ids[lo..hi]) + next && forall c :: c in children ==> c < |nodes|
    requires if next == {} then hi == |ids|
             else forall c :: c in next ==> c < |nodes| && (Eval(nodes, rank, c, input) <==> AllFrom(nodes, rank, ids, hi, input))
    ensures (forall c :: c in children ==> Eval(nodes, rank, c, input)) <==> AllFrom(nodes, rank, ids, lo, input)
  {
    hide Eval, Acyclic;
    forall c: nat ensures c in ToSet(ids[lo..hi]) <==> exists i :: lo <= i < hi && ids[i] == c {
      InChunk(ids, lo, hi, c);
    }
    hide ToSet;
    if AllFrom(nodes, rank, ids, lo, input) {
      forall c | c in children ensures Eval(nodes, rank, c, input) {
      }
    }
    if forall c :: c in children ==> Eval(nodes, rank, c, input) {
      assert next != {} ==> AllFrom(nodes, rank, ids, hi, input) by {
        if next != {} {
          var c :| c in next;
          assert c in children;
        }
      }
      forall i | lo <= i < |ids| ensures Eval(nodes, rank, ids[i], input) {
        assert i < hi ==> ids[i] in children;
      }
    }
  }

  /** A disjunctive chain matches when some child from here on does. */
  lemma {:induction false} OrChain(g: Graph, v: nat, ids: seq<nat>, bound: nat, m: nat, nodes: seq<EntryNode>, counts: seq<nat>,
                                   rank: seq<nat>, j: nat, input: SubsetDefinition)
    requires Chained(g, v, OR, ids, bound, m, nodes, counts, rank) && Acyclic(nodes, rank) && j <= m
    requires ids != [] && forall i :: 0 <= i < |ids| ==> ids[i] < |nodes|
    ensures Link(v, |g.nodes|, j) < |nodes|
    ensures Eval(nodes, rank, Link(v, |g.nodes|, j), input) <==> SomeFrom(nodes, rank, ids, CHUNK * j, input)
    decreases m - j
  {
    hide Eval, Chained, Link, Acyclic;
    LinkShape(g, v, OR, ids, bound, m, nodes, counts, rank, j);
    var l, hi := Link(v, |g.nodes|, j), ChunkEnd(ids, m, j);
    InChunk(ids, CHUNK * j, hi, ids[CHUNK * j]);
    EvalOr(nodes, rank, l, input);
    if j < m {
      OrChain(g, v, ids, bound, m, nodes, counts, rank, j + 1, input);
    }
    SomeChildren(nodes, rank, ids, CHUNK * j, hi, nodes[l].children, if j == m then {} else {Link(v, |g.nodes|, j + 1)}, input);
  }

  lemma SomeChildren(nodes: seq<EntryNode>, rank: seq<nat>, ids: seq<nat>, lo: nat, hi: nat, children: set<nat>, next: set<nat>,
                     input: SubsetDefinition)
    requires Acyclic(nodes, rank) && (forall i :: 0 <= i < |ids| ==> ids[i] < |nodes|) && lo <= hi <= |ids|
    requires children == ToSet(ids[lo..hi]) + next && forall c :: c in children ==> c < |nodes|
    requires if next == {} then hi == |ids|
             else forall c :: c in next ==> c < |nodes| && (Eval(nodes, rank, c, input) <==> SomeFrom(nodes, rank, ids, hi, input))
    ensures (exists c :: c in children && Eval(nodes, rank, c, input)) <==> SomeFrom(nodes, rank, ids, lo, input)
  {
    hide Eval, Acyclic;
    forall c: nat ensures c in ToSet(ids[lo..hi]) <==> exists i :: lo <= i < hi && ids[i] == c {
      InChunk(ids, lo, hi, c);
    }
    hide ToSet;
    if SomeFrom(nodes, rank, ids, lo, input) {
      var i :| lo <= i < |ids| && Eval(nodes, rank, ids[i], input);
      if i < hi {
        assert ids[i] in children;
      } else {
        assert SomeFrom(nodes, rank, ids, hi, input);
        var c :| c in next;
        assert c in children;
      }
    }
    if c :| c in children && Eval(nodes, rank, c, input) {
    }
  }

  // ---------- what is left as it was ----------

  /** In the finished graph no leaf is without sets and no node has more than 127 children. */
  lemma ChainedCore(g: Graph, v: nat, mode: ChildMode, ids: seq<nat>, bound: nat, m: nat, pending: multiset<nat>, pending': multiset<nat>,
                    nodes: seq<EntryNode>, counts: seq<nat>, rank: seq<nat>)
    requires Core(g, pending') && NoParents(g.nodes, v) && Linkable(g, v, ids, bound)
    requires forall i :: 0 <= i < |ids| ==> Solid(g.nodes[ids[i]])
    requires Chained(g, v, mode, ids, bound, m, nodes, counts, rank) && Consistent(nodes, counts, rank, g.roots, pending)
    requires forall x :: x in pending ==> x < |g.nodes|
    ensures Core(g.(nodes := nodes, counts := counts, rank := rank), pending)
  {
    CoreFacts(g, pending');
    hide Consistent;
    forall x | 0 <= x < |nodes| ensures LeavesHaveSets(nodes, x) && |nodes[x].children| <= MAX_CHILDREN {
      if x < |g.nodes| && x != v {
        assert LeavesHaveSets(g.nodes, x);
        assert forall c :: c in g.nodes[x].children ==> c < |g.nodes| && c != v;
      } else {
        var j := if x == v then 0 else x - |g.nodes| + 1;
        assert x == Link(v, |g.nodes|, j);
        LinkOk(g, v, mode, ids, bound, m, nodes, counts, rank, j);
      }
    }
  }

  lemma LinkOk(g: Graph, v: nat, mode: ChildMode, ids: seq<nat>, bound: nat, m: nat,
               nodes: seq<EntryNode>, counts: seq<nat>, rank: seq<nat>, j: nat)
    requires Chained(g, v, mode, ids, bound, m, nodes, counts, rank) && Linkable(g, v, ids, bound) && j <= m
    requires forall i :: 0 <= i < |ids| ==> Solid(g.nodes[ids[i]])
    ensures Link(v, |g.nodes|, j) < |nodes|
    ensures LeavesHaveSets(nodes, Link(v, |g.nodes|, j)) && |nodes[Link(v, |g.nodes|, j)].children| <= MAX_CHILDREN
  {
    LinkShape(g, v, mode, ids, bound, m, nodes, counts, rank, j);
    var l, hi := Link(v, |g.nodes|, j), ChunkEnd(ids, m, j);
    var next: set<nat> := if j == m then {} else {Link(v, |g.nodes|, j + 1)};
    LinkSize(ids[CHUNK * j..hi], next);
    hide Chained, Linkable, Link, ToSet;
    forall c | c in nodes[l].children && c < |nodes| ensures Solid(nodes[c]) {
      if c in next {
        NextNotEmpty(g, v, mode, ids, bound, m, nodes, counts, rank, j + 1);
      } else {
        ChunkSolid(g, v, mode, ids, bound, m, nodes, counts, rank, CHUNK * j, hi, c);
      }
    }
  }

  lemma LinkSize(chunk: seq<nat>, next: set<nat>)
    ensures |ToSet(chunk) + next| <= |chunk| + |next|
  {
    SetSize(chunk);
    assert ToSet(chunk) + next == ToSet(chunk) + (next - ToSet(chunk));
    FewerChildren(next - ToSet(chunk), next);
  }

  lemma FewerChildren(a: set<nat>, b: set<nat>)
    requires a <= b
    ensures |a| <= |b|
  {
    assert b == a + (b - a);
  }

  lemma ChunkSolid(g: Graph, v: nat, mode: ChildMode, ids: seq<nat>, bound: nat, m: nat,
                   nodes: seq<EntryNode>, counts: seq<nat>, rank: seq<nat>, lo: nat, hi: nat, c: nat)
    requires Chained(g, v, mode, ids, bound, m, nodes, counts, rank) && Linkable(g, v, ids, bound) && lo <= hi <= |ids|
    requires (forall i :: 0 <= i < |ids| ==> Solid(g.nodes[ids[i]])) && c in ToSet(ids[lo..hi])
    ensures c < |nodes| && Solid(nodes[c])
  {
    InChunk(ids, lo, hi, c);
    var i :| lo <= i < hi && ids[i] == c;
    assert nodes[c] == g.nodes[c];
  }

  lemma NextNotEmpty(g: Graph, v: nat, mode: ChildMode, ids: seq<nat>, bound: nat, m: nat,
                     nodes: seq<EntryNode>, counts: seq<nat>, rank: seq<nat>, j: nat)
    requires Chained(g, v, mode, ids, bound, m, nodes, counts, rank) && 0 < j <= m
    ensures nodes[Link(v, |g.nodes|, j)].children != {}
  {
    LinkShape(g, v, mode, ids, bound, m, nodes, counts, rank, j);
    InChunk(ids, CHUNK * j, ChunkEnd(ids, m, j), ids[CHUNK * j]);
  }

  // ---------- one child at a time ----------

  /** A child that is not the node of an open condition, becomes a child of one that is. */
  lemma LinkOne(segments: Segments, g: Graph, open: set<Key>, k: Key, v: nat, pending: multiset<nat>, c: nat)
    requires open <= g.byCondition.Keys && k in open && g.byCondition[k] == v && v < |g.nodes| == |g.rank| && c < |g.nodes|
    requires Building(segments, g, open, pending + multiset{c}) && Solid(g.nodes[c])
    requires g.rank[c] < g.rank[v] && c !in g.nodes[v].children && |g.nodes[v].children| < MAX_CHILDREN
    requires forall k' :: k' in open ==> g.byCondition[k'] != c
    ensures Building(segments, g.(nodes := Linked(g.nodes, v, [c])), open, pending)
    ensures ExtendsBut(g, g.(nodes := Linked(g.nodes, v, [c])), v)
  {
    hide Core, Acyclic, NoParents, Building, Linked;
    var g' := g.(nodes := Linked(g.nodes, v, [c]));
    OpenIsFree(segments, g, open, pending + multiset{c}, k);
    LinkOneCore(g, v, pending, c);
    forall k' | k' in open ensures NoParents(g'.nodes, g.byCondition[k']) {
      OpenIsFree(segments, g, open, pending + multiset{c}, k');
      NoParentsLinked(g.nodes, g.byCondition[k'], v, [c]);
    }
    LinkedSame(g.nodes, v, [c]);
    OpenChanged(segments, g, g', open, k, pending + multiset{c}, pending);
  }

  lemma LinkedSame(nodes: seq<EntryNode>, v: nat, ids: seq<nat>)
    requires v < |nodes|
    ensures forall x :: 0 <= x < |nodes| && x != v ==> SameMeaning(nodes[x], Linked(nodes, v, ids)[x])
    ensures Linked(nodes, v, ids)[v].sets == nodes[v].sets
  {
  }

  lemma LinkOneCore(g: Graph, v: nat, pending: multiset<nat>, c: nat)
    requires Core(g, pending + multiset{c}) && v < |g.nodes| && c < |g.nodes| == |g.rank| && Solid(g.nodes[c])
    requires g.rank[c] < g.rank[v] && c !in g.nodes[v].children && |g.nodes[v].children| < MAX_CHILDREN && NoParents(g.nodes, v)
    ensures Core(g.(nodes := Linked(g.nodes, v, [c])), pending)
  {
    CoreFacts(g, pending + multiset{c});
    hide Consistent;
    assert multiset([c]) == multiset{c};
    LinkConsistent(g.nodes, g.counts, g.rank, g.roots, pending, v, [c]);
    var nodes' := Linked(g.nodes, v, [c]);
    assert ToSet([c]) == {c};
    forall x | 0 <= x < |nodes'| ensures LeavesHaveSets(nodes', x) && |nodes'[x].children| <= MAX_CHILDREN {
      assert LeavesHaveSets(g.nodes, x);
      if x == v {
        assert v !in nodes'[v].children;
      }
    }
    assert forall x :: x in pending ==> x in pending + multiset{c};
  }

  /** The finished chain in place of the open node. */
  lemma ChainBuilding(segments: Segments, g: Graph, open: set<Key>, k: Key, mode: ChildMode, ids: seq<nat>, bound: nat, m: nat,
                      pending: multiset<nat>, pending': multiset<nat>, nodes: seq<EntryNode>, counts: seq<nat>, rank: seq<nat>)
    requires Building(segments, g, open, pending') && k in open && g.byCondition[k] < |g.nodes|
    requires Chained(g, g.byCondition[k], mode, ids, bound, m, nodes, counts, rank) && Linkable(g, g.byCondition[k], ids, bound)
    requires forall i :: 0 <= i < |ids| ==> Solid(g.nodes[ids[i]])
    requires forall i, k' :: 0 <= i < |ids| && k' in open ==> ids[i] != g.byCondition[k']
    requires Consistent(nodes, counts, rank, g.roots, pending) && forall x :: x in pending ==> x < |g.nodes|
    ensures var g' := g.(nodes := nodes, counts := counts, rank := rank);
            Building(segments, g', open, pending) && ExtendsBut(g, g', g.byCondition[k])
    ensures ids != [] ==> nodes[g.byCondition[k]].children != {}
  {
    var v, g' := g.byCondition[k], g.(nodes := nodes, counts := counts, rank := rank);
    assert NoParents(g.nodes, v);
    CoreFacts(g, pending');
    hide Consistent, Means, KeyOk, Acyclic;
    ChainedCore(g, v, mode, ids, bound, m, pending, pending', nodes, counts, rank);
    LinkShape(g, v, mode, ids, bound, m, nodes, counts, rank, 0);
    forall k' | k' in open ensures NoParents(nodes, g.byCondition[k']) {
      OpenStaysFree(segments, g, open, v, k', mode, ids, bound, m, nodes, counts, rank);
    }
    hide Core, Chained, ConditionsOk;
    OpenChanged(segments, g, g', open, k, pending', pending);
    if ids != [] {
      InChunk(ids, 0, ChunkEnd(ids, m, 0), ids[0]);
    }
  }

  lemma OpenStaysFree(segments: Segments, g: Graph, open: set<Key>, v: nat, k': Key, mode: ChildMode, ids: seq<nat>, bound: nat, m: nat,
                      nodes: seq<EntryNode>, counts: seq<nat>, rank: seq<nat>)
    requires Acyclic(g.nodes, g.rank) && ConditionsOk(segments, g, open) && k' in open
    requires Chained(g, v, mode, ids, bound, m, nodes, counts, rank) && Linkable(g, v, ids, bound)
    requires forall i :: 0 <= i < |ids| ==> ids[i] != g.byCondition[k']
    ensures NoParents(nodes, g.byCondition[k'])
  {
    var u := g.byCondition[k'];
    assert NoParents(g.nodes, u);
    forall x | 0 <= x < |nodes| ensures u !in nodes[x].children {
      if x < |g.nodes| && x != v {
      } else {
        var j := if x == v then 0 else x - |g.nodes| + 1;
        LinkShape(g, v, mode, ids, bound, m, nodes, counts, rank, j);
        InChunk(ids, CHUNK * j, ChunkEnd(ids, m, j), u);
      }
    }
  }

  /** While the chain is being made. */
  ghost predicate Chaining(g: Graph, v: nat, mode: ChildMode, ids: seq<nat>, bound: nat, m: nat, pending: multiset<nat>,
                           nodes: seq<EntryNode>, counts: seq<nat>, rank: seq<nat>)
  {
    && Chain(g, v, mode, ids, bound, m, nodes, counts, rank)
    && Linkable(g, v, ids, bound) && Link(v, |g.nodes|, m) < |nodes|
    && nodes[Link(v, |g.nodes|, m)].children == {} && counts[Link(v, |g.nodes|, m)] > 0
    && (forall x :: x in pending ==> x < |g.nodes|)
    && Consistent(nodes, counts, rank, g.roots, pending + multiset(ids[CHUNK * m..]))
  }

  lemma ChainingStarts(segments: Segments, g: Graph, open: set<Key>, k: Key, mode: ChildMode, ids: seq<nat>, bound: nat, pending: multiset<nat>)
    requires Building(segments, g, open, pending + multiset(ids)) && k in open && g.byCondition[k] < |g.nodes| == |g.rank|
    requires g.nodes[g.byCondition[k]].mode == mode && g.nodes[g.byCondition[k]].children == {} && g.nodes[g.byCondition[k]].sets == NOTHING
    requires Linkable(g, g.byCondition[k], ids, bound) && g.rank[g.byCondition[k]] <= bound
    ensures Chaining(g, g.byCondition[k], mode, ids, bound, 0, pending, g.nodes, g.counts, g.rank[g.byCondition[k] := bound + |ids|])
  {
    var v := g.byCondition[k];
    assert NoParents(g.nodes, v);
    CoreFacts(g, pending + multiset(ids));
    assert ids[CHUNK * 0..] == ids;
    assert forall x :: x in pending ==> x in pending + multiset(ids);
    hide Consistent, Means, KeyOk, Acyclic;
    ChainStart(g, v, mode, ids, bound, pending + multiset(ids));
  }

  lemma ChainingNext(g: Graph, v: nat, mode: ChildMode, ids: seq<nat>, bound: nat, m: nat, pending: multiset<nat>,
                     nodes: seq<EntryNode>, counts: seq<nat>, rank: seq<nat>, node: EntryNode)
    requires Chaining(g, v, mode, ids, bound, m, pending, nodes, counts, rank) && |ids| - CHUNK * m > MAX_CHILDREN
    requires node.children == {} && node.sets == NOTHING && node.mode == mode
    ensures 0 < CHUNK && CHUNK * (m + 1) < |ids| && Link(v, |g.nodes|, m) < |nodes| && bound + |ids| >= CHUNK * (m + 1) && Link(v, |g.nodes|, m + 1) == |nodes|
    ensures var cur, chunk, next := Link(v, |g.nodes|, m), ids[CHUNK * m..CHUNK * (m + 1)], |nodes|;
            var nodes1 := Linked(nodes, cur, chunk) + [node];
            var nodes' := nodes1[cur := nodes1[cur].(children := nodes1[cur].children + {next})];
            Chaining(g, v, mode, ids, bound, m + 1, pending, nodes', counts + [1], rank + [bound + |ids| - CHUNK * (m + 1)])
  {
    hide Chain, Consistent, Linkable, Linked;
    ChainNextLengths(g, v, mode, ids, bound, m, nodes, counts, rank);
    ChainNext(g, v, mode, ids, bound, m, pending, nodes, counts, rank, node);
  }

  lemma ChainNextLengths(g: Graph, v: nat, mode: ChildMode, ids: seq<nat>, bound: nat, m: nat,
                         nodes: seq<EntryNode>, counts: seq<nat>, rank: seq<nat>)
    requires Chain(g, v, mode, ids, bound, m, nodes, counts, rank)
    ensures |nodes| == |counts| == |rank| == |g.nodes| + m
  {
  }

  /** What the finished chain means in the finished graph. */
  ghost predicate Combines(nodes: seq<EntryNode>, rank: seq<nat>, v: nat, mode: ChildMode, ids: seq<nat>) {
    && Acyclic(nodes, rank) && v < |nodes| && (forall i :: 0 <= i < |ids| ==> ids[i] < |nodes|)
    && forall input :: Eval(nodes, rank, v, input) <==>
         if mode == AND then AllFrom(nodes, rank, ids, 0, input) else SomeFrom(nodes, rank, ids, 0, input)
  }

  lemma ChainingEnds(segments: Segments, g: Graph, open: set<Key>, k: Key, mode: ChildMode, ids: seq<nat>, bound: nat, m: nat,
                     pending: multiset<nat>, nodes: seq<EntryNode>, counts: seq<nat>, rank: seq<nat>)
    requires Building(segments, g, open, pending + multiset(ids)) && k in open && k in g.byCondition && g.byCondition[k] < |g.nodes|
    requires Chaining(g, g.byCondition[k], mode, ids, bound, m, pending, nodes, counts, rank)
    requires |ids| - CHUNK * m <= MAX_CHILDREN && (m > 0 ==> CHUNK * m < |ids|)
    requires forall i :: 0 <= i < |ids| ==> ids[i] < |g.nodes| && Solid(g.nodes[ids[i]])
    requires open <= g.byCondition.Keys && forall i, k' :: 0 <= i < |ids| && k' in open ==> ids[i] != g.byCondition[k']
    requires mode == AND || (mode == OR && ids != [])
    ensures Link(g.byCondition[k], |g.nodes|, m) < |nodes| && CHUNK * m <= |ids| && g.byCondition[k] < |nodes|
    ensures var nodes' := Linked(nodes, Link(g.byCondition[k], |g.nodes|, m), ids[CHUNK * m..]);
            var g' := g.(nodes := nodes', counts := counts, rank := rank);
            && Building(segments, g', open, pending) && ExtendsBut(g, g', g.byCondition[k])
            && Combines(nodes', rank, g.byCondition[k], mode, ids)
            && (ids != [] ==> nodes'[g.byCondition[k]].children != {})
  {
    hide Chain, Consistent, Building, Solid;
    var v := g.byCondition[k];
    ChainEndLength(g, v, mode, ids, bound, m, nodes, counts, rank);
    ChainEnd(g, v, mode, ids, bound, m, pending, nodes, counts, rank);
    var nodes' := Linked(nodes, Link(v, |g.nodes|, m), ids[CHUNK * m..]);
    hide Chained, Linked, Linkable;
    ChainBuilding(segments, g, open, k, mode, ids, bound, m, pending, pending + multiset(ids), nodes', counts, rank);
    ChainedCombines(g, v, mode, ids, bound, m, nodes', counts, rank, pending);
  }

  lemma ChainEndLength(g: Graph, v: nat, mode: ChildMode, ids: seq<nat>, bound: nat, m: nat,
                       nodes: seq<EntryNode>, counts: seq<nat>, rank: seq<nat>)
    requires Chain(g, v, mode, ids, bound, m, nodes, counts, rank)
    ensures |nodes| == |g.nodes| + m && CHUNK * m <= |ids| && v < |g.nodes|
  {
  }

  lemma ChainedCombines(g: Graph, v: nat, mode: ChildMode, ids: seq<nat>, bound: nat, m: nat,
                        nodes: seq<EntryNode>, counts: seq<nat>, rank: seq<nat>, pending: multiset<nat>)
    requires Chained(g, v, mode, ids, bound, m, nodes, counts, rank) && Consistent(nodes, counts, rank, g.roots, pending)
    requires forall i :: 0 <= i < |ids| ==> ids[i] < |g.nodes|
    requires mode == AND || (mode == OR && ids != [])
    ensures Combines(nodes, rank, v, mode, ids)
  {
    assert Acyclic(nodes, rank);
    assert |nodes| >= |g.nodes| && v < |g.nodes|;
    hide Chained, Consistent, Acyclic, Eval, AllFrom, SomeFrom;
    forall input ensures Eval(nodes, rank, v, input) <==>
      if mode == AND then AllFrom(nodes, rank, ids, 0, input) else SomeFrom(nodes, rank, ids, 0, input)
    {
      if mode == AND {
        AndChain(g, v, ids, bound, m, nodes, counts, rank, 0, input);
      } else {
        OrChain(g, v, ids, bound, m, nodes, counts, rank, 0, input);
      }
    }
  }
}
