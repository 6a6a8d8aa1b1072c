/** The entry graph as values: what its nodes mean, which edges keep a node alive, and what dropping an edge frees. */
module EntryNodes {
  import opened IntSets
  import opened SubsetDefinitions
  import opened Wrappers

  datatype ChildMode = NONE | AND | OR

  datatype EntryNode = EntryNode(sets: SubsetDefinition, mode: ChildMode, children: set<nat>, conditionIndex: nat)

  const EMPTY_NODE := EntryNode(NOTHING, NONE, {}, 0)

  // ---------- meaning ----------

  /** Edges go to nodes of lower rank. */
  ghost predicate Acyclic(nodes: seq<EntryNode>, rank: seq<nat>) {
    && |rank| == |nodes|
    && forall x, c {:trigger c in nodes[x].children} ::
         0 <= x < |nodes| && c in nodes[x].children ==> c < |nodes| && rank[c] < rank[x]
  }

  /** An entry matches an input when all its local sets that are not empty intersect it and its children match:
      all of them in conjunctive mode, some of them otherwise. */
  ghost predicate Eval(nodes: seq<EntryNode>, rank: seq<nat>, x: nat, input: SubsetDefinition)
    requires Acyclic(nodes, rank) && x < |nodes|
    decreases rank[x]
  {
    && nodes[x].sets.MatchedBy(input)
    && (nodes[x].children == {}
        || if nodes[x].mode == AND then forall c :: c in nodes[x].children ==> Eval(nodes, rank, c, input)
           else exists c :: c in nodes[x].children && Eval(nodes, rank, c, input))
  }

  ghost predicate SameMeaning(a: EntryNode, b: EntryNode) {
    a.sets == b.sets && a.mode == b.mode && a.children == b.children
  }

  /** The two graphs agree on the nodes of L, which lead only to nodes of L. */
  ghost predicate AgreeOn(n1: seq<EntryNode>, n2: seq<EntryNode>, L: set<nat>, v: int) {
    forall x :: x in L ==> x < |n1| && x < |n2| && (x != v ==> SameMeaning(n1[x], n2[x]) && n1[x].children <= L)
  }

  /** Where two graphs agree, except at v, and v means the same in both, all nodes mean the same. */
  lemma {:induction false} EvalFrame(n1: seq<EntryNode>, r1: seq<nat>, n2: seq<EntryNode>, r2: seq<nat>, L: set<nat>,
                                     v: int, x: nat, input: SubsetDefinition)
    requires Acyclic(n1, r1) && Acyclic(n2, r2) && AgreeOn(n1, n2, L, v) && x in L
    requires v in L ==> Eval(n1, r1, v, input) == Eval(n2, r2, v, input)
    ensures Eval(n1, r1, x, input) == Eval(n2, r2, x, input)
    decreases r1[x]
  {
    if x != v {
      forall c | c in n1[x].children ensures Eval(n1, r1, c, input) == Eval(n2, r2, c, input) {
        EvalFrame(n1, r1, n2, r2, L, v, c, input);
      }
      assert n2[x].children == n1[x].children;
    }
  }

  // ---------- edges ----------

  /** How many live nodes have x as a child. */
  ghost function InDegree(nodes: seq<EntryNode>, counts: seq<nat>, x: nat): nat
    requires |nodes| == |counts|
  {
    if nodes == [] then 0
    else
      var n := |nodes| - 1;
      InDegree(nodes[..n], counts[..n], x) + (if counts[n] > 0 && x in nodes[n].children then 1 else 0)
  }

  /** A change at one node changes the in-degree by what that node contributes. */
  lemma {:induction false} InDegreeUpdate(nodes: seq<EntryNode>, counts: seq<nat>, v: nat, m: EntryNode, count: nat, x: nat)
    requires |nodes| == |counts| && v < |nodes|
    ensures InDegree(nodes[v := m], counts[v := count], x) + (if counts[v] > 0 && x in nodes[v].children then 1 else 0)
            == InDegree(nodes, counts, x) + (if count > 0 && x in m.children then 1 else 0)
  {
    var n := |nodes| - 1;
    var nodes', counts' := nodes[v := m], counts[v := count];
    if v == n {
      assert nodes'[..n] == nodes[..n] && counts'[..n] == counts[..n];
    } else {
      InDegreeUpdate(nodes[..n], counts[..n], v, m, count, x);
      assert nodes'[..n] == nodes[..n][v := m] && counts'[..n] == counts[..n][v := count];
    }
  }

  lemma {:induction false} InDegreePositive(nodes: seq<EntryNode>, counts: seq<nat>, y: nat, x: nat)
    requires |nodes| == |counts| && y < |nodes| && counts[y] > 0 && x in nodes[y].children
    ensures InDegree(nodes, counts, x) > 0
  {
    var n := |nodes| - 1;
    if y < n {
      InDegreePositive(nodes[..n], counts[..n], y, x);
    }
  }

  /** Only which nodes are live and their children matter. */
  lemma {:induction false} InDegreeSame(n1: seq<EntryNode>, c1: seq<nat>, n2: seq<EntryNode>, c2: seq<nat>, x: nat)
    requires |n1| == |c1| == |n2| == |c2|
    requires forall y :: 0 <= y < |n1| ==> (c1[y] > 0 && x in n1[y].children <==> c2[y] > 0 && x in n2[y].children)
    ensures InDegree(n1, c1, x) == InDegree(n2, c2, x)
  {
    if n1 != [] {
      var n := |n1| - 1;
      forall y | 0 <= y < n
        ensures c1[..n][y] > 0 && x in n1[..n][y].children <==> c2[..n][y] > 0 && x in n2[..n][y].children
      {
      }
      InDegreeSame(n1[..n], c1[..n], n2[..n], c2[..n], x);
    }
  }

  lemma {:induction false} InDegreeZero(nodes: seq<EntryNode>, counts: seq<nat>, x: nat)
    requires |nodes| == |counts|
    requires forall y :: 0 <= y < |nodes| && counts[y] > 0 ==> x !in nodes[y].children
    ensures InDegree(nodes, counts, x) == 0
  {
    if nodes != [] {
      InDegreeZero(nodes[..|nodes| - 1], counts[..|nodes| - 1], x);
    }
  }

  // ---------- counts ----------

  /** Every count is the number of live parents, plus one for a root, plus the edges that are still to be added
      (or taken away). */
  ghost predicate CountsExact(nodes: seq<EntryNode>, counts: seq<nat>, roots: set<nat>, pending: multiset<nat>) {
    && |nodes| == |counts|
    && forall x: nat :: x < |nodes| ==>
         counts[x] == InDegree(nodes, counts, x) + (if x in roots then 1 else 0) + pending[x]
  }

  ghost predicate InRange(nodes: seq<EntryNode>, work: seq<nat>) {
    && (forall x, c :: 0 <= x < |nodes| && c in nodes[x].children ==> c < |nodes|)
    && forall k :: 0 <= k < |work| ==> work[k] < |nodes|
  }

  ghost function Sum(counts: seq<nat>): nat {
    if counts == [] then 0 else Sum(counts[..|counts| - 1]) + counts[|counts| - 1]
  }

  lemma {:induction false} SumUpdate(counts: seq<nat>, v: nat, count: nat)
    requires v < |counts|
    ensures Sum(counts[v := count]) == Sum(counts) - counts[v] + count
  {
    var n := |counts| - 1;
    if v == n {
      assert counts[v := count][..n] == counts[..n];
    } else {
      SumUpdate(counts[..n], v, count);
      assert counts[v := count][..n] == counts[..n][v := count];
    }
  }

  /** Drops the first edge of `work`: a node that nothing leads to any more drops its own edges next. */
  ghost function Less(counts: seq<nat>, w: nat): (r: seq<nat>)
    requires w < |counts|
    ensures |r| == |counts|
  {
    counts[w := if counts[w] == 0 then 0 else counts[w] - 1]
  }

  ghost function More(nodes: seq<EntryNode>, counts: seq<nat>, work: seq<nat>): (r: seq<nat>)
    requires |nodes| == |counts| && InRange(nodes, work) && work != []
    ensures InRange(nodes, r)
  {
    var v := ToVector(nodes[work[0]].children);
    assert forall k :: 0 <= k < |v| ==> v[k] in v;
    if counts[work[0]] == 1 then v + work[1..] else work[1..]
  }

  lemma LessSum(counts: seq<nat>, w: nat)
    requires w < |counts|
    ensures counts[w] == 0 ==> Less(counts, w) == counts
    ensures counts[w] > 0 ==> Sum(Less(counts, w)) < Sum(counts)
  {
    SumUpdate(counts, w, if counts[w] == 0 then 0 else counts[w] - 1);
  }

  /** The counts after all the edges to the nodes of `work` are dropped. */
  ghost function Drop(nodes: seq<EntryNode>, counts: seq<nat>, work: seq<nat>): (r: seq<nat>)
    requires |nodes| == |counts| && InRange(nodes, work)
    ensures |r| == |counts|
    decreases Sum(counts), |work|
  {
    if work == [] then counts
    else
      LessSum(counts, work[0]);
      Drop(nodes, Less(counts, work[0]), More(nodes, counts, work))
  }

  lemma {:induction false} DropLowers(nodes: seq<EntryNode>, counts: seq<nat>, work: seq<nat>)
    requires |nodes| == |counts| && InRange(nodes, work)
    ensures forall x :: 0 <= x < |counts| ==> Drop(nodes, counts, work)[x] <= counts[x]
    decreases Sum(counts), |work|
  {
    if work != [] {
      LessSum(counts, work[0]);
      hide InRange, ToVector;
      DropLowers(nodes, Less(counts, work[0]), More(nodes, counts, work));
    }
  }

  lemma {:induction false} DropSum(nodes: seq<EntryNode>, counts: seq<nat>, work: seq<nat>)
    requires |nodes| == |counts| && InRange(nodes, work)
    ensures Sum(Drop(nodes, counts, work)) <= Sum(counts)
    decreases Sum(counts), |work|
  {
    if work != [] {
      LessSum(counts, work[0]);
      hide InRange, ToVector;
      DropSum(nodes, Less(counts, work[0]), More(nodes, counts, work));
    }
  }

  /** One edge: either nothing more happens, or the children of the freed node follow. */
  lemma DropOne(nodes: seq<EntryNode>, counts: seq<nat>, w: nat)
    requires |nodes| == |counts| && InRange(nodes, [w])
    ensures w < |counts| && InRange(nodes, ToVector(nodes[w].children))
    ensures counts[w] == 0 ==> Drop(nodes, counts, [w]) == counts
    ensures counts[w] > 1 ==> Drop(nodes, counts, [w]) == Less(counts, w)
    ensures counts[w] == 1 ==> Drop(nodes, counts, [w]) == Drop(nodes, Less(counts, w), ToVector(nodes[w].children))
  {
    LessSum(counts, w);
    assert w == [w][0];
    var v := ToVector(nodes[w].children);
    assert forall k :: 0 <= k < |v| ==> v[k] in v;
    hide ToVector, InRange;
    assert [w][1..] == [];
    assert v + [] == v;
    assert Drop(nodes, counts, [w]) == Drop(nodes, Less(counts, w), More(nodes, counts, [w]));
    assert Drop(nodes, Less(counts, w), []) == Less(counts, w);
  }

  lemma MoreConcat(nodes: seq<EntryNode>, counts: seq<nat>, a: seq<nat>, b: seq<nat>)
    requires |nodes| == |counts| && InRange(nodes, a) && InRange(nodes, a + b) && a != []
    ensures (a + b)[0] == a[0] && More(nodes, counts, a + b) == More(nodes, counts, a) + b
  {
    hide ToVector;
    var v := ToVector(nodes[a[0]].children);
    assert (a + b)[1..] == a[1..] + b;
    assert v + (a[1..] + b) == (v + a[1..]) + b;
  }

  lemma {:induction false} DropConcat(nodes: seq<EntryNode>, counts: seq<nat>, a: seq<nat>, b: seq<nat>)
    requires |nodes| == |counts| && InRange(nodes, a) && InRange(nodes, b) && InRange(nodes, a + b)
    ensures Drop(nodes, counts, a + b) == Drop(nodes, Drop(nodes, counts, a), b)
    decreases Sum(counts), |a|
  {
    if a == [] {
      assert a + b == b;
    } else {
      MoreConcat(nodes, counts, a, b);
      LessSum(counts, a[0]);
      assert counts[a[0]] == 0 ==> |More(nodes, counts, a)| < |a|;
      hide InRange, More;
      DropConcat(nodes, Less(counts, a[0]), More(nodes, counts, a), b);
    }
  }

  /** Only the children of nodes that are freed matter. */
  lemma {:induction false} DropFrame(n1: seq<EntryNode>, n2: seq<EntryNode>, counts: seq<nat>, work: seq<nat>)
    requires |n1| == |counts| == |n2| && InRange(n1, work) && InRange(n2, work)
    requires forall x :: 0 <= x < |counts| && counts[x] > 0 && Drop(n1, counts, work)[x] == 0 ==>
               n1[x].children == n2[x].children
    ensures Drop(n1, counts, work) == Drop(n2, counts, work)
    decreases Sum(counts), |work|
  {
    if work != [] {
      LessSum(counts, work[0]);
      var less, more := Less(counts, work[0]), More(n1, counts, work);
      DropLowers(n1, less, more);
      hide InRange, ToVector;
      assert less[work[0]] == 0 ==> Drop(n1, counts, work)[work[0]] == 0;
      assert More(n2, counts, work) == more;
      DropFrame(n1, n2, less, more);
    }
  }

  ghost predicate Below(rank: seq<nat>, work: seq<nat>, r: nat) {
    forall k :: 0 <= k < |work| ==> work[k] < |rank| && rank[work[k]] < r
  }

  lemma MoreBelow(nodes: seq<EntryNode>, rank: seq<nat>, counts: seq<nat>, work: seq<nat>, r: nat)
    requires Acyclic(nodes, rank) && |nodes| == |counts| && InRange(nodes, work) && Below(rank, work, r) && work != []
    ensures Below(rank, More(nodes, counts, work), r)
  {
    var v := ToVector(nodes[work[0]].children);
    hide ToVector, InRange;
    forall k | 0 <= k < |v| ensures v[k] < |rank| && rank[v[k]] < r {
      assert v[k] in v;
    }
  }

  /** Dropping edges below rank r frees nothing at or above it. */
  lemma {:induction false} DropKeepsAbove(nodes: seq<EntryNode>, rank: seq<nat>, counts: seq<nat>, work: seq<nat>, r: nat)
    requires Acyclic(nodes, rank) && |nodes| == |counts| && InRange(nodes, work) && Below(rank, work, r)
    ensures forall x :: 0 <= x < |counts| && rank[x] >= r ==> Drop(nodes, counts, work)[x] == counts[x]
    decreases Sum(counts), |work|
  {
    if work != [] {
      LessSum(counts, work[0]);
      MoreBelow(nodes, rank, counts, work, r);
      assert rank[work[0]] < r;
      hide Acyclic, InRange, Below, More;
      DropKeepsAbove(nodes, rank, Less(counts, work[0]), More(nodes, counts, work), r);
    }
  }

  lemma Occurrences(s: set<nat>, x: nat)
    ensures multiset(ToVector(s))[x] == if x in s then 1 else 0
  {
    var v := ToVector(s);
    hide ToVector;
    assert x in s <==> x in v;
    if x in s {
      var i :| 0 <= i < |v| && v[i] == x;
      OneOccurrence(v, i);
    }
  }

  lemma OneOccurrence(v: seq<nat>, i: nat)
    requires Ascending(v) && i < |v|
    ensures multiset(v)[v[i]] == 1
  {
    assert v == v[..i] + [v[i]] + v[i + 1..];
    assert v[i] !in v[..i] && v[i] !in v[i + 1..];
  }

  lemma TakeEdge(nodes: seq<EntryNode>, counts: seq<nat>, roots: set<nat>, work: seq<nat>)
    requires InRange(nodes, work) && CountsExact(nodes, counts, roots, multiset(work)) && work != []
    ensures CountsExact(nodes, Less(counts, work[0]), roots, multiset(More(nodes, counts, work)))
  {
    hide InDegree, ToVector;
    var w := work[0];
    assert work == [w] + work[1..];
    assert multiset(work) == multiset{w} + multiset(work[1..]);
    assert counts[w] > 0;
    var less := Less(counts, w);
    forall x: nat | x < |nodes|
      ensures less[x] == InDegree(nodes, less, x) + (if x in roots then 1 else 0) + multiset(More(nodes, counts, work))[x]
    {
      InDegreeUpdate(nodes, counts, w, nodes[w], less[w], x);
      assert nodes[w := nodes[w]] == nodes;
      Occurrences(nodes[w].children, x);
    }
  }

  /** Dropping the pending edges leaves every count exact. */
  lemma {:induction false} DropStaysExact(nodes: seq<EntryNode>, counts: seq<nat>, roots: set<nat>, work: seq<nat>)
    requires InRange(nodes, work) && CountsExact(nodes, counts, roots, multiset(work))
    ensures CountsExact(nodes, Drop(nodes, counts, work), roots, multiset{})
    decreases Sum(counts), |work|
  {
    if work == [] {
      assert multiset(work) == multiset{};
    } else {
      TakeEdge(nodes, counts, roots, work);
      LessSum(counts, work[0]);
      hide CountsExact, InRange, ToVector;
      DropStaysExact(nodes, Less(counts, work[0]), roots, More(nodes, counts, work));
    }
  }

  // ---------- cost ----------

  /** The estimated size of an entry depends on its local sets, whether it is conjunctive, and its number of children. */
  type CostModel = (SubsetDefinition, bool, nat) -> nat

  function NodeCost(cost: CostModel, node: EntryNode): nat {
    cost(node.sets, node.mode == AND, |node.children|)
  }

  /** The total cost of the live nodes. */
  ghost function LiveCost(cost: CostModel, nodes: seq<EntryNode>, counts: seq<nat>): nat
    requires |nodes| == |counts|
  {
    if nodes == [] then 0
    else
      var n := |nodes| - 1;
      LiveCost(cost, nodes[..n], counts[..n]) + (if counts[n] > 0 then NodeCost(cost, nodes[n]) else 0)
  }

  lemma {:induction false} LiveCostUpdate(cost: CostModel, nodes: seq<EntryNode>, counts: seq<nat>, v: nat, m: EntryNode, count: nat)
    requires |nodes| == |counts| && v < |nodes|
    ensures LiveCost(cost, nodes[v := m], counts[v := count]) + (if counts[v] > 0 then NodeCost(cost, nodes[v]) else 0)
            == LiveCost(cost, nodes, counts) + (if count > 0 then NodeCost(cost, m) else 0)
  {
    var n := |nodes| - 1;
    var nodes', counts' := nodes[v := m], counts[v := count];
    if v == n {
      assert nodes'[..n] == nodes[..n] && counts'[..n] == counts[..n];
    } else {
      LiveCostUpdate(cost, nodes[..n], counts[..n], v, m, count);
      assert nodes'[..n] == nodes[..n][v := m] && counts'[..n] == counts[..n][v := count];
    }
  }

  lemma {:induction false} LiveCostSame(cost: CostModel, n1: seq<EntryNode>, n2: seq<EntryNode>, counts: seq<nat>)
    requires |n1| == |counts| == |n2|
    requires forall x :: 0 <= x < |counts| && counts[x] > 0 ==> n1[x] == n2[x]
    ensures LiveCost(cost, n1, counts) == LiveCost(cost, n2, counts)
  {
    if n1 != [] {
      var n := |n1| - 1;
      LiveCostSame(cost, n1[..n], n2[..n], counts[..n]);
    }
  }

  // ---------- clearing ----------

  /** The nodes that lost their last edge are cleared. */
  ghost function Cleared(nodes: seq<EntryNode>, before: seq<nat>, after: seq<nat>): (r: seq<EntryNode>)
    requires |nodes| == |before| == |after|
    ensures |r| == |nodes|
  {
    seq(|nodes|, x requires 0 <= x < |nodes| => if before[x] > 0 && after[x] == 0 then EMPTY_NODE else nodes[x])
  }

  lemma ClearedTwice(nodes: seq<EntryNode>, c0: seq<nat>, c1: seq<nat>, c2: seq<nat>)
    requires |nodes| == |c0| == |c1| == |c2|
    requires forall x :: 0 <= x < |c1| ==> c1[x] <= c0[x] && c2[x] <= c1[x]
    ensures Cleared(Cleared(nodes, c0, c1), c1, c2) == Cleared(nodes, c0, c2)
  {
  }

  /** Dropping one edge more, on nodes of which the freed ones are already clear. */
  lemma DropOnCleared(nodes: seq<EntryNode>, counts: seq<nat>, done: seq<nat>, w: nat)
    requires |nodes| == |counts| && InRange(nodes, done + [w])
    ensures InRange(nodes, done) && InRange(nodes, [w])
    ensures var now := Drop(nodes, counts, done);
            var clear := Cleared(nodes, counts, now);
            && InRange(clear, [w])
            && Drop(clear, now, [w]) == Drop(nodes, counts, done + [w])
            && Cleared(clear, now, Drop(clear, now, [w])) == Cleared(nodes, counts, Drop(nodes, counts, done + [w]))
  {
    assert w == (done + [w])[|done|];
    assert forall k :: 0 <= k < |done| ==> done[k] == (done + [w])[k];
    var now := Drop(nodes, counts, done);
    var clear := Cleared(nodes, counts, now);
    DropLowers(nodes, counts, done);
    DropLowers(clear, now, [w]);
    DropConcat(nodes, counts, done, [w]);
    DropFrame(clear, nodes, now, [w]);
    ClearedTwice(nodes, counts, now, Drop(clear, now, [w]));
  }
}
