/** Kahn's algorithm on the entry graph. */
module EntrySort {
  import opened IntSets
  import opened SubsetDefinitions
  import opened EntryNodes
  import opened Wrappers

  /** The order of the priority queue: condition index, then id. */
  predicate Before(nodes: seq<EntryNode>, a: nat, b: nat)
    requires a < |nodes| && b < |nodes|
  {
    if nodes[a].conditionIndex == nodes[b].conditionIndex then a < b
    else nodes[a].conditionIndex < nodes[b].conditionIndex
  }

  ghost predicate ParentsIn(nodes: seq<EntryNode>, x: nat, before: seq<nat>) {
    forall y: nat :: y < |nodes| && x in nodes[y].children ==> y in before
  }

  /** All the ids, each once, every parent before its children. */
  ghost predicate Topological(nodes: seq<EntryNode>, sorted: seq<nat>) {
    && |sorted| == |nodes|
    && (forall i :: 0 <= i < |sorted| ==> sorted[i] < |nodes|)
    && (forall x: nat :: x < |nodes| ==> x in sorted)
    && (forall i, j :: 0 <= i < j < |sorted| ==> sorted[i] != sorted[j])
    && (forall i :: 0 <= i < |sorted| ==> ParentsIn(nodes, sorted[i], sorted[..i]))
  }

  /** Of the nodes whose parents have all been taken, the one of the largest condition index comes next, and of those the one
      of the largest id. */
  ghost predicate ByPriority(nodes: seq<EntryNode>, sorted: seq<nat>)
    requires forall i :: 0 <= i < |sorted| ==> sorted[i] < |nodes|
  {
    forall i, j :: 0 <= i < j < |sorted| && ParentsIn(nodes, sorted[j], sorted[..i]) ==>
      var a, b := nodes[sorted[i]].conditionIndex, nodes[sorted[j]].conditionIndex;
      b < a || (a == b && sorted[j] < sorted[i])
  }

  /** The number of parents that have not been taken; open[x] is 1 until x is taken. */
  ghost predicate IsRemaining(nodes: seq<EntryNode>, open: seq<nat>, edgeCount: seq<nat>, rest: seq<nat>) {
    && |nodes| == |open| == |edgeCount|
    && forall x: nat :: x < |nodes| ==> edgeCount[x] == InDegree(nodes, open, x) + (if x in rest then 1 else 0)
  }

  ghost predicate IsQueue(open: seq<nat>, edgeCount: seq<nat>, queue: set<nat>)
    requires |open| == |edgeCount|
  {
    forall x: nat :: x in queue <==> x < |open| && open[x] == 1 && edgeCount[x] == 0
  }

  /** What has been taken so far, each once, every parent before its children. */
  ghost predicate TakenOrder(nodes: seq<EntryNode>, open: seq<nat>, sorted: seq<nat>) {
    && |open| == |nodes| && |sorted| + Sum(open) == |nodes|
    && (forall i :: 0 <= i < |sorted| ==> sorted[i] < |nodes|)
    && (forall x: nat :: x < |nodes| ==> open[x] <= 1 && (open[x] == 0 <==> x in sorted))
    && (forall i, j :: 0 <= i < j < |sorted| ==> sorted[i] != sorted[j])
    && forall i :: 0 <= i < |sorted| ==> ParentsIn(nodes, sorted[i], sorted[..i])
  }

  /** Nothing that is left should have come earlier. */
  ghost predicate TakenPriority(nodes: seq<EntryNode>, open: seq<nat>, sorted: seq<nat>)
    requires |open| == |nodes| && forall i :: 0 <= i < |sorted| ==> sorted[i] < |nodes|
  {
    ByPriority(nodes, sorted)
    && forall i, x :: 0 <= i < |sorted| && 0 <= x < |nodes| && open[x] == 1 && ParentsIn(nodes, x, sorted[..i]) ==>
         Before(nodes, x, sorted[i])
  }

  ghost predicate Taken(nodes: seq<EntryNode>, open: seq<nat>, sorted: seq<nat>) {
    TakenOrder(nodes, open, sorted) && TakenPriority(nodes, open, sorted)
  }

  method Top(nodes: seq<EntryNode>, queue: set<nat>) returns (id: nat)
    requires queue != {} && forall x :: x in queue ==> x < |nodes|
    ensures id in queue && forall x :: x in queue && x != id ==> Before(nodes, x, id)
  {
    id :| id in queue;
    var rest := queue - {id};
    while rest != {}
      invariant rest <= queue && id in queue && id !in rest
      invariant forall x :: x in queue && x !in rest && x != id ==> Before(nodes, x, id)
      decreases |rest|
    {
      var x :| x in rest;
      rest := rest - {x};
      if Before(nodes, id, x) {
        id := x;
      }
    }
  }

  lemma NoParentsLeft(nodes: seq<EntryNode>, open: seq<nat>, sorted: seq<nat>, x: nat)
    requires Taken(nodes, open, sorted) && x < |nodes|
    ensures InDegree(nodes, open, x) == 0 <==> ParentsIn(nodes, x, sorted)
  {
    if InDegree(nodes, open, x) == 0 {
      forall y: nat | y < |nodes| && x in nodes[y].children ensures y in sorted {
        if open[y] > 0 { InDegreePositive(nodes, open, y, x); }
      }
    }
    if ParentsIn(nodes, x, sorted) {
      InDegreeZero(nodes, open, x);
    }
  }

  lemma TakeInOrder(nodes: seq<EntryNode>, open: seq<nat>, sorted: seq<nat>, id: nat)
    requires TakenOrder(nodes, open, sorted) && id < |nodes| && open[id] == 1 && ParentsIn(nodes, id, sorted)
    ensures TakenOrder(nodes, open[id := 0], sorted + [id])
  {
    var sorted' := sorted + [id];
    SumUpdate(open, id, 0);
    assert id !in sorted;
    hide ParentsIn, Sum;
    forall i | 0 <= i < |sorted'| ensures ParentsIn(nodes, sorted'[i], sorted'[..i]) {
      assert sorted'[..i] == sorted[..i];
      if i == |sorted| { assert sorted[..i] == sorted; }
    }
    forall x: nat | x < |nodes| ensures open[id := 0][x] == 0 <==> x in sorted' {
      assert x in sorted' <==> x in sorted || x == id;
    }
  }

  lemma TakeByPriority(nodes: seq<EntryNode>, open: seq<nat>, sorted: seq<nat>, id: nat)
    requires TakenOrder(nodes, open, sorted) && TakenPriority(nodes, open, sorted) && id < |nodes| && open[id] == 1
    requires forall x: nat :: x < |nodes| && open[x] == 1 && x != id && ParentsIn(nodes, x, sorted) ==> Before(nodes, x, id)
    ensures |open| == |nodes| && (forall i :: 0 <= i < |sorted + [id]| ==> (sorted + [id])[i] < |nodes|)
    ensures TakenPriority(nodes, open[id := 0], sorted + [id])
  {
    hide ParentsIn, Sum;
    var open', sorted' := open[id := 0], sorted + [id];
    assert sorted'[..|sorted|] == sorted;
    forall i, j | 0 <= i < j < |sorted'| && ParentsIn(nodes, sorted'[j], sorted'[..i]) ensures Before(nodes, sorted'[j], sorted'[i]) {
      assert sorted'[..i] == sorted[..i];
    }
    forall i, x | 0 <= i < |sorted'| && 0 <= x < |nodes| && open'[x] == 1 && ParentsIn(nodes, x, sorted'[..i])
      ensures Before(nodes, x, sorted'[i])
    {
      if i < |sorted| {
        assert sorted'[..i] == sorted[..i];
      }
    }
  }

  /** Taking a node of highest priority whose parents have been taken. */
  lemma TakeNode(nodes: seq<EntryNode>, open: seq<nat>, sorted: seq<nat>, id: nat)
    requires Taken(nodes, open, sorted) && id < |nodes| && open[id] == 1 && ParentsIn(nodes, id, sorted)
    requires forall x: nat :: x < |nodes| && open[x] == 1 && x != id && ParentsIn(nodes, x, sorted) ==> Before(nodes, x, id)
    ensures Taken(nodes, open[id := 0], sorted + [id])
  {
    TakeInOrder(nodes, open, sorted, id);
    TakeByPriority(nodes, open, sorted, id);
  }

  /** Some node has no open parent: follow open parents up, their ranks rise. */
  lemma {:induction false} SomethingOpenIsFree(nodes: seq<EntryNode>, rank: seq<nat>, open: seq<nat>, bound: nat, x: nat) returns (free: nat)
    requires Acyclic(nodes, rank) && |open| == |nodes| && x < |nodes| && open[x] > 0
    requires forall y :: 0 <= y < |rank| ==> rank[y] <= bound
    ensures free < |nodes| && open[free] > 0 && InDegree(nodes, open, free) == 0
    decreases bound - rank[x]
  {
    if y: nat :| y < |nodes| && open[y] > 0 && x in nodes[y].children {
      free := SomethingOpenIsFree(nodes, rank, open, bound, y);
    } else {
      InDegreeZero(nodes, open, x);
      free := x;
    }
  }

  lemma {:induction false} Bounded(rank: seq<nat>) returns (bound: nat)
    ensures forall y :: 0 <= y < |rank| ==> rank[y] <= bound
  {
    if rank == [] {
      bound := 0;
    } else {
      var rest := Bounded(rank[..|rank| - 1]);
      bound := if rest < rank[|rank| - 1] then rank[|rank| - 1] else rest;
      assert forall y :: 0 <= y < |rank| - 1 ==> rank[..|rank| - 1][y] == rank[y];
    }
  }

  lemma {:induction false} SumZero(open: seq<nat>)
    ensures (forall x :: 0 <= x < |open| ==> open[x] == 0) ==> Sum(open) == 0
  {
    if open != [] {
      SumZero(open[..|open| - 1]);
    }
  }

  /** With an empty queue nothing is open. */
  lemma AllTaken(nodes: seq<EntryNode>, rank: seq<nat>, open: seq<nat>, edgeCount: seq<nat>, sorted: seq<nat>)
    requires Acyclic(nodes, rank) && Taken(nodes, open, sorted) && IsRemaining(nodes, open, edgeCount, [])
    requires IsQueue(open, edgeCount, {})
    ensures |sorted| == |nodes|
  {
    if x :| 0 <= x < |nodes| && open[x] == 1 {
      var bound := Bounded(rank);
      var free := SomethingOpenIsFree(nodes, rank, open, bound, x);
    }
    SumZero(open);
  }

  lemma StartSort(nodes: seq<EntryNode>, open: seq<nat>)
    requires |open| == |nodes| && forall x :: 0 <= x < |open| ==> open[x] == 1
    ensures Taken(nodes, open, [])
  {
    AllOnes(open);
  }

  lemma {:induction false} AllOnes(open: seq<nat>)
    requires forall x :: 0 <= x < |open| ==> open[x] == 1
    ensures Sum(open) == |open|
  {
    if open != [] {
      AllOnes(open[..|open| - 1]);
    }
  }

  /** Takes one edge away from each child; a child without any left joins the queue. */
  method ReleaseChildren(nodes: seq<EntryNode>, id: nat, ghost open: seq<nat>, edges: seq<nat>, waiting: set<nat>)
    returns (ok: bool, edgeCount: seq<nat>, queue: set<nat>)
    requires id < |nodes| && IsRemaining(nodes, open, edges, ToVector(nodes[id].children))
    requires |open| == |edges| == |nodes| && IsQueue(open, edges, waiting)
    requires forall c :: c in nodes[id].children ==> c < |nodes| && open[c] == 1
    ensures ok && IsRemaining(nodes, open, edgeCount, []) && IsQueue(open, edgeCount, queue)
  {
    hide *;
    var children := ToVector(nodes[id].children);
    edgeCount, queue := edges, waiting;
    assert children[0..] == children;
    for k := 0 to |children|
      invariant IsRemaining(nodes, open, edgeCount, children[k..]) && |open| == |edgeCount| == |nodes|
      invariant IsQueue(open, edgeCount, queue)
    {
      var child := children[k];
      EdgeTaken(nodes, id, open, edgeCount, k, queue);
      if edgeCount[child] == 0 {
        return false, edgeCount, queue;
      }
      edgeCount := edgeCount[child := edgeCount[child] - 1];
      if edgeCount[child] == 0 {
        queue := queue + {child};
      }
    }
    assert children[|children|..] == [];
    return true, edgeCount, queue;
  }

  lemma EdgeTaken(nodes: seq<EntryNode>, id: nat, open: seq<nat>, edgeCount: seq<nat>, k: nat, queue: set<nat>)
    requires id < |nodes| && |open| == |edgeCount| == |nodes| && k < |ToVector(nodes[id].children)|
    requires forall c :: c in nodes[id].children ==> c < |nodes| && open[c] == 1
    requires IsRemaining(nodes, open, edgeCount, ToVector(nodes[id].children)[k..]) && IsQueue(open, edgeCount, queue)
    ensures var children := ToVector(nodes[id].children);
            && children[k] < |nodes| && edgeCount[children[k]] > 0
            && var less := edgeCount[children[k] := edgeCount[children[k]] - 1];
               IsRemaining(nodes, open, less, children[k + 1..])
               && IsQueue(open, less, if less[children[k]] == 0 then queue + {children[k]} else queue)
  {
    hide InDegree, ToVector, IsRemaining, IsQueue;
    var children := ToVector(nodes[id].children);
    assert forall c :: c in nodes[id].children <==> c in children;
    assert children[k] in children;
    EdgeLess(nodes, open, edgeCount, children, k, queue);
  }

  lemma EdgeLess(nodes: seq<EntryNode>, open: seq<nat>, edgeCount: seq<nat>, children: seq<nat>, k: nat, queue: set<nat>)
    requires Ascending(children) && k < |children| && children[k] < |nodes| && |open| == |edgeCount|
    requires IsRemaining(nodes, open, edgeCount, children[k..]) && IsQueue(open, edgeCount, queue) && open[children[k]] == 1
    ensures edgeCount[children[k]] > 0
    ensures var less := edgeCount[children[k] := edgeCount[children[k]] - 1];
            IsRemaining(nodes, open, less, children[k + 1..])
            && IsQueue(open, less, if less[children[k]] == 0 then queue + {children[k]} else queue)
  {
    hide InDegree;
    assert children[k..] == [children[k]] + children[k + 1..];
    assert children[k] !in children[k + 1..];
  }

  /** Kahn's algorithm on exact edge counts of an acyclic graph meets neither of its errors. */
  method Kahn(nodes: seq<EntryNode>, edges: seq<nat>, ghost rank: seq<nat>) returns (result: Result<seq<nat>>)
    requires Acyclic(nodes, rank)
    requires IsRemaining(nodes, seq(|nodes|, _ => 1), edges, [])
    ensures result.Ok? && Topological(nodes, result.value) && ByPriority(nodes, result.value)
  {
    ghost var open: seq<nat> := seq(|nodes|, _ => 1);
    var edgeCount, sorted := edges, [];
    var queue := FreeNodes(edgeCount);
    StartSort(nodes, open);
    hide *;
    while queue != {}
      invariant Taken(nodes, open, sorted) && IsRemaining(nodes, open, edgeCount, []) && |open| == |edgeCount|
      invariant IsQueue(open, edgeCount, queue)
      decreases Sum(open)
    {
      QueuedNodes(nodes, rank, open, edgeCount, sorted, queue);
      var id := Top(nodes, queue);
      queue := queue - {id};
      TakeFromQueue(nodes, rank, open, edgeCount, sorted, queue, id);
      sorted := sorted + [id];
      open := open[id := 0];
      var ok;
      ok, edgeCount, queue := ReleaseChildren(nodes, id, open, edgeCount, queue);
      if !ok {
        return Error;
      }
    }
    AllTaken(nodes, rank, open, edgeCount, sorted);
    if |sorted| != |nodes| {
      return Error;
    }
    SortedIsTopological(nodes, open, sorted);
    return Ok(sorted);
  }

  method FreeNodes(edgeCount: seq<nat>) returns (queue: set<nat>)
    ensures IsQueue(seq(|edgeCount|, _ => 1), edgeCount, queue)
  {
    queue := {};
    for i := 0 to |edgeCount|
      invariant forall x: nat :: x in queue <==> x < i && edgeCount[x] == 0
    {
      if edgeCount[i] == 0 {
        queue := queue + {i};
      }
    }
  }

  lemma QueuedNodes(nodes: seq<EntryNode>, rank: seq<nat>, open: seq<nat>, edgeCount: seq<nat>, sorted: seq<nat>, queue: set<nat>)
    requires Taken(nodes, open, sorted) && IsRemaining(nodes, open, edgeCount, []) && IsQueue(open, edgeCount, queue)
    ensures forall x: nat :: x in queue <==> x < |nodes| && open[x] == 1 && ParentsIn(nodes, x, sorted)
  {
    forall x: nat ensures x in queue <==> x < |nodes| && open[x] == 1 && ParentsIn(nodes, x, sorted) {
      if x < |nodes| { NoParentsLeft(nodes, open, sorted, x); }
    }
  }

  lemma TakeFromQueue(nodes: seq<EntryNode>, rank: seq<nat>, open: seq<nat>, edgeCount: seq<nat>, sorted: seq<nat>, queue: set<nat>, id: nat)
    requires Acyclic(nodes, rank) && Taken(nodes, open, sorted) && IsRemaining(nodes, open, edgeCount, [])
    requires id !in queue && IsQueue(open, edgeCount, queue + {id})
    requires forall x :: x in queue ==> x < |nodes| && id < |nodes| && Before(nodes, x, id)
    ensures id < |nodes| && |open| == |edgeCount| && Taken(nodes, open[id := 0], sorted + [id])
    ensures IsRemaining(nodes, open[id := 0], edgeCount, ToVector(nodes[id].children))
    ensures IsQueue(open[id := 0], edgeCount, queue)
    ensures forall c :: c in nodes[id].children ==> c < |nodes| && open[id := 0][c] == 1
    ensures Sum(open[id := 0]) < Sum(open)
  {
    hide ToVector, Taken, Acyclic, ParentsIn, InDegree, Sum, Before;
    assert id in queue + {id};
    QueuedNodes(nodes, rank, open, edgeCount, sorted, queue + {id});
    TakeNode(nodes, open, sorted, id);
    SumUpdate(open, id, 0);
    ChildrenOpen(nodes, rank, open, sorted, id);
    assert forall c :: c in nodes[id].children <==> c in ToVector(nodes[id].children);
    forall x: nat | x < |nodes|
      ensures edgeCount[x] == InDegree(nodes, open[id := 0], x) + (if x in ToVector(nodes[id].children) then 1 else 0)
    {
      InDegreeUpdate(nodes, open, id, nodes[id], 0, x);
      assert nodes[id := nodes[id]] == nodes;
    }
  }

  lemma ChildrenOpen(nodes: seq<EntryNode>, rank: seq<nat>, open: seq<nat>, sorted: seq<nat>, id: nat)
    requires Acyclic(nodes, rank) && Taken(nodes, open, sorted) && id < |nodes| && open[id] == 1
    ensures forall c :: c in nodes[id].children ==> c < |nodes| && open[c] == 1 && c != id
  {
    forall c | c in nodes[id].children ensures c < |nodes| && open[c] == 1 && c != id {
      if c in sorted {
        ParentOfTaken(nodes, open, sorted, c, id);
      }
    }
  }

  lemma ParentOfTaken(nodes: seq<EntryNode>, open: seq<nat>, sorted: seq<nat>, c: nat, id: nat)
    requires Taken(nodes, open, sorted) && c in sorted && id < |nodes| && c in nodes[id].children
    ensures id in sorted
  {
    var i :| 0 <= i < |sorted| && sorted[i] == c;
    assert id in sorted[..i];
  }

  lemma SortedIsTopological(nodes: seq<EntryNode>, open: seq<nat>, sorted: seq<nat>)
    requires Taken(nodes, open, sorted) && |sorted| == |nodes|
    ensures Topological(nodes, sorted) && ByPriority(nodes, sorted)
  {
    NothingInSum(open);
  }

  lemma {:induction false} NothingInSum(open: seq<nat>)
    requires Sum(open) == 0
    ensures forall x :: 0 <= x < |open| ==> open[x] == 0
  {
    if open != [] {
      NothingInSum(open[..|open| - 1]);
    }
  }
}
