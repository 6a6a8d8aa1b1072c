/** What Tarjan's algorithm, with its recursion turned into a stack of frames, keeps at every step. */
module TarjanState {
  import opened Reachability

  datatype Meta = Meta(index: int, lowlink: int, onStack: bool)

  /** A node on the depth first path, with the successors that are still to be looked at. */
  datatype Frame = Frame(node: Node, edges: seq<Node>)

  /** The variables of the algorithm; `at` gives the place on the stack of each node of the path. */
  datatype State = State(meta: map<Node, Meta>, stack: seq<Node>, dfs: seq<Frame>, index: nat, sccs: seq<seq<Node>>, at: seq<nat>)

  ghost predicate Visited(s: State, x: Node) {
    x in s.meta && s.meta[x].index >= 0
  }

  ghost predicate Done(s: State, x: Node) {
    exists a :: 0 <= a < |s.sccs| && x in s.sccs[a]
  }

  /** The last node of the path has not been visited yet. */
  ghost predicate Fresh(s: State) {
    |s.dfs| == |s.at| + 1
  }

  ghost predicate StackOk(s: State) {
    && (forall p :: 0 <= p < |s.stack| ==> Visited(s, s.stack[p]) && s.meta[s.stack[p]].index < s.index && s.meta[s.stack[p]].onStack)
    && (forall p, q :: 0 <= p < q < |s.stack| ==> s.meta[s.stack[p]].index < s.meta[s.stack[q]].index)
    && (forall x :: x in s.meta && s.meta[x].onStack ==> x in s.stack)
    && (forall x :: Visited(s, x) <==> x in s.stack || Done(s, x))
    && (forall x :: x in s.stack ==> !Done(s, x))
  }

  ghost predicate FramesOk(g: Graph, s: State) {
    && |s.at| <= |s.dfs| <= |s.at| + 1
    && (forall i :: 0 <= i < |s.at| ==> s.at[i] < |s.stack| && s.stack[s.at[i]] == s.dfs[i].node)
    && (forall i, j :: 0 <= i < j < |s.at| ==> s.at[i] < s.at[j])
    && (if s.at == [] then s.stack == [] else s.at[0] == 0)
    && (forall i :: 0 <= i < |s.dfs| ==> s.dfs[i].edges <= g(s.dfs[i].node))
    && (forall i :: 0 <= i < |s.dfs| - 1 ==> s.dfs[i + 1].node in g(s.dfs[i].node))
    && (Fresh(s) ==> s.dfs[|s.dfs| - 1].edges == [] && !Visited(s, s.dfs[|s.dfs| - 1].node))
    && (forall x :: x in s.meta && !Visited(s, x) ==> Fresh(s) && x == s.dfs[|s.dfs| - 1].node && s.meta[x].index == -1)
  }

  /** Where the part of the stack ends that belongs to the i-th node of the path. */
  ghost function End(s: State, i: nat): nat {
    if i + 1 < |s.at| then s.at[i + 1] else |s.stack|
  }

  /** Position p of the stack belongs to the i-th node of the path. */
  ghost predicate InPart(s: State, i: int, p: int) {
    0 <= i < |s.at| <= |s.dfs| && s.at[i] <= p < End(s, i) && p < |s.stack|
  }

  /** Each stack node is strongly connected with the node of the path it belongs to. */
  ghost predicate OwnersOk(g: Graph, s: State) {
    forall i, p :: InPart(s, i, p) ==> Reach(g, s.stack[p], s.dfs[i].node) && Reach(g, s.dfs[i].node, s.stack[p])
  }

  /** The successors of a stack node that have been looked at. */
  ghost function Explored(g: Graph, s: State, i: nat, p: nat): seq<Node>
    requires i < |s.at| <= |s.dfs| && p < |s.stack| && s.dfs[i].edges <= g(s.dfs[i].node) && (p == s.at[i] ==> s.stack[p] == s.dfs[i].node)
  {
    if p == s.at[i] then g(s.stack[p])[|s.dfs[i].edges|..] else g(s.stack[p])
  }

  /** What has been looked at is visited, and if it is on the stack, the owner's lowlink knows. */
  ghost predicate EdgesOk(g: Graph, s: State)
    requires StackOk(s) && FramesOk(g, s)
  {
    forall i, p, y :: InPart(s, i, p) && y in Explored(g, s, i, p) ==> EdgeOk(s, i, y)
  }

  ghost predicate EdgeOk(s: State, i: nat, y: Node)
    requires i < |s.at| <= |s.dfs| && Visited(s, s.dfs[i].node)
  {
    || (Fresh(s) && y == s.dfs[|s.dfs| - 1].node)
    || (Visited(s, y) && (s.meta[y].onStack ==> s.meta[y].index >= s.meta[s.dfs[i].node].lowlink))
  }

  /** The lowlink of a node of the path is the index of a stack node that it reaches. */
  ghost predicate LowOk(g: Graph, s: State)
    requires StackOk(s) && FramesOk(g, s)
  {
    forall i :: 0 <= i < |s.at| ==> LowOf(g, s, i)
  }

  ghost predicate LowOf(g: Graph, s: State, i: nat)
    requires StackOk(s) && FramesOk(g, s) && i < |s.at| && Visited(s, s.dfs[i].node)
  {
    && s.meta[s.dfs[i].node].lowlink <= s.meta[s.dfs[i].node].index
    && exists q :: 0 <= q <= s.at[i] && s.meta[s.stack[q]].index == s.meta[s.dfs[i].node].lowlink && Reach(g, s.dfs[i].node, s.stack[q])
  }

  lemma LowWitness(g: Graph, s: State, i: nat) returns (q: nat)
    requires StackOk(s) && FramesOk(g, s) && i < |s.at| && Visited(s, s.dfs[i].node) && LowOf(g, s, i)
    ensures q <= s.at[i] < |s.stack| && Visited(s, s.stack[q]) && s.meta[s.stack[q]].index == s.meta[s.dfs[i].node].lowlink
    ensures Reach(g, s.dfs[i].node, s.stack[q]) && s.stack[q] in s.stack
    ensures s.meta[s.dfs[i].node].lowlink <= s.meta[s.dfs[i].node].index
  {
    hide Reach;
    q :| 0 <= q <= s.at[i] && s.meta[s.stack[q]].index == s.meta[s.dfs[i].node].lowlink && Reach(g, s.dfs[i].node, s.stack[q]);
  }

  lemma PathDistinct(g: Graph, s: State, i: nat, j: nat)
    requires StackOk(s) && FramesOk(g, s) && i < j < |s.at|
    ensures s.dfs[i].node != s.dfs[j].node && s.at[i] < s.at[j] < |s.stack| && Visited(s, s.dfs[i].node) && Visited(s, s.dfs[j].node)
    ensures s.meta[s.dfs[i].node].index < s.meta[s.dfs[j].node].index
  {
    assert s.stack[s.at[i]] == s.dfs[i].node && s.stack[s.at[j]] == s.dfs[j].node;
  }

  /** A maximal set of nodes that all reach one another. */
  ghost predicate IsComponent(g: Graph, c: seq<Node>) {
    && c != []
    && (forall i, j :: 0 <= i < j < |c| ==> c[i] != c[j])
    && forall u, v :: u in c ==> (v in c <==> Reach(g, u, v) && Reach(g, v, u))
  }

  ghost predicate InFirst(sccs: seq<seq<Node>>, n: nat, x: Node) {
    exists b :: 0 <= b < n && b < |sccs| && x in sccs[b]
  }

  /** The finished components lead only to components finished before them, and to themselves. */
  ghost predicate DoneOk(g: Graph, s: State) {
    && (forall a :: 0 <= a < |s.sccs| ==> IsComponent(g, s.sccs[a]))
    && (forall a, x, y :: 0 <= a < |s.sccs| && x in s.sccs[a] && y in g(x) ==> InFirst(s.sccs, a + 1, y))
    && forall a, b, x :: 0 <= a < b < |s.sccs| && x in s.sccs[a] ==> x !in s.sccs[b]
  }

  ghost predicate FromRoots(g: Graph, roots: set<Node>, x: Node) {
    exists r :: r in roots && Reach(g, r, x)
  }

  ghost predicate RootsOk(g: Graph, roots: set<Node>, universe: set<Node>, s: State) {
    && (forall x :: x in s.meta ==> x in universe && FromRoots(g, roots, x))
    && forall i :: 0 <= i < |s.dfs| ==> s.dfs[i].node in universe && FromRoots(g, roots, s.dfs[i].node)
  }

  ghost predicate Inv(g: Graph, roots: set<Node>, universe: set<Node>, s: State) {
    && StackOk(s) && FramesOk(g, s) && OwnersOk(g, s) && EdgesOk(g, s) && LowOk(g, s) && DoneOk(g, s)
    && RootsOk(g, roots, universe, s)
  }

  ghost predicate Closed(g: Graph, universe: set<Node>) {
    forall x, y :: x in universe && y in g(x) ==> y in universe
  }

  // ---------- entering a node ----------

  ghost function Entered(g: Graph, s: State): State
    requires s.dfs != []
  {
    var v := s.dfs[|s.dfs| - 1].node;
    s.(meta := s.meta[v := Meta(s.index, s.index, true)], stack := s.stack + [v],
       dfs := s.dfs[|s.dfs| - 1 := Frame(v, g(v))], index := s.index + 1, at := s.at + [|s.stack|])
  }

  lemma EnterStack(g: Graph, s: State)
    requires StackOk(s) && FramesOk(g, s) && Fresh(s)
    ensures StackOk(Entered(g, s))
  {
    hide FramesOk;
    FreshIsNew(g, s);
    var v, t := s.dfs[|s.dfs| - 1].node, Entered(g, s);
    assert forall x :: Done(t, x) <==> Done(s, x);
    hide Done;
    assert forall x :: x in t.stack <==> x in s.stack || x == v;
    forall p | 0 <= p < |t.stack| ensures t.stack[p] != v ==> p < |s.stack| && t.stack[p] == s.stack[p] {
    }
    forall p | 0 <= p < |s.stack| ensures s.stack[p] != v {
      assert s.stack[p] in s.stack;
    }
  }

  lemma FreshIsNew(g: Graph, s: State)
    requires StackOk(s) && FramesOk(g, s) && Fresh(s)
    ensures var v := s.dfs[|s.dfs| - 1].node; v !in s.stack && !Done(s, v) && !Visited(s, v)
  {
  }

  lemma EnterFrames(g: Graph, s: State)
    requires StackOk(s) && FramesOk(g, s) && Fresh(s)
    ensures FramesOk(g, Entered(g, s))
  {
    hide StackOk;
  }

  lemma EnterOwners(g: Graph, s: State)
    requires StackOk(s) && FramesOk(g, s) && OwnersOk(g, s) && Fresh(s)
    ensures OwnersOk(g, Entered(g, s))
  {
    var v, t := s.dfs[|s.dfs| - 1].node, Entered(g, s);
    ReachSelf(g, v);
    hide StackOk, Reach;
    forall i, p | InPart(t, i, p) ensures Reach(g, t.stack[p], t.dfs[i].node) && Reach(g, t.dfs[i].node, t.stack[p]) {
      if i < |s.at| {
        assert InPart(s, i, p) && t.stack[p] == s.stack[p] && t.dfs[i] == s.dfs[i];
      }
    }
  }

  lemma EnterEdges(g: Graph, s: State)
    requires StackOk(s) && FramesOk(g, s) && EdgesOk(g, s) && LowOk(g, s) && Fresh(s)
    requires StackOk(Entered(g, s)) && FramesOk(g, Entered(g, s))
    ensures EdgesOk(g, Entered(g, s))
  {
    var v, t := s.dfs[|s.dfs| - 1].node, Entered(g, s);
    hide Reach, StackOk;
    forall i, p, y | InPart(t, i, p) && y in Explored(g, t, i, p) ensures Visited(t, t.dfs[i].node) && EdgeOk(t, i, y) {
      if i < |s.at| {
        assert InPart(s, i, p) && t.stack[p] == s.stack[p] && t.dfs[i] == s.dfs[i];
        assert Explored(g, t, i, p) == Explored(g, s, i, p);
        assert EdgeOk(s, i, y);
        EnterEdge(g, s, i, y);
      }
    }
  }

  lemma EnterEdge(g: Graph, s: State, i: nat, y: Node)
    requires StackOk(s) && FramesOk(g, s) && LowOk(g, s) && Fresh(s) && i < |s.at| && EdgeOk(s, i, y)
    ensures var t := Entered(g, s);
            Visited(t, t.dfs[i].node) && EdgeOk(t, i, y)
  {
    hide Reach;
    FreshIsNew(g, s);
    assert s.stack[s.at[i]] == s.dfs[i].node && s.stack[s.at[i]] in s.stack;
    assert LowOf(g, s, i);
  }

  lemma EnterLow(g: Graph, s: State)
    requires StackOk(s) && FramesOk(g, s) && LowOk(g, s) && Fresh(s)
    requires StackOk(Entered(g, s)) && FramesOk(g, Entered(g, s))
    ensures LowOk(g, Entered(g, s))
  {
    var v, t := s.dfs[|s.dfs| - 1].node, Entered(g, s);
    ReachSelf(g, v);
    FreshIsNew(g, s);
    hide Reach, StackOk;
    forall i | 0 <= i < |t.at| ensures Visited(t, t.dfs[i].node) && LowOf(g, t, i) {
      if i < |s.at| {
        assert LowOf(g, s, i);
        EnterLowOf(g, s, i);
      } else {
        assert t.stack[|s.stack|] == v;
      }
    }
  }

  lemma EnterLowOf(g: Graph, s: State, i: nat)
    requires StackOk(s) && FramesOk(g, s) && Fresh(s) && i < |s.at| && Visited(s, s.dfs[i].node) && LowOf(g, s, i)
    requires StackOk(Entered(g, s)) && FramesOk(g, Entered(g, s))
    ensures Visited(Entered(g, s), Entered(g, s).dfs[i].node) && LowOf(g, Entered(g, s), i)
  {
    hide Reach;
    var v, t := s.dfs[|s.dfs| - 1].node, Entered(g, s);
    FreshIsNew(g, s);
    assert s.stack[s.at[i]] in s.stack && s.stack[s.at[i]] == s.dfs[i].node;
    assert t.dfs[i] == s.dfs[i] && t.meta[s.dfs[i].node] == s.meta[s.dfs[i].node] && t.at[i] == s.at[i];
    var q :| 0 <= q <= s.at[i] && s.meta[s.stack[q]].index == s.meta[s.dfs[i].node].lowlink && Reach(g, s.dfs[i].node, s.stack[q]);
    assert s.stack[q] in s.stack && t.stack[q] == s.stack[q];
  }

  lemma Enter(g: Graph, roots: set<Node>, universe: set<Node>, s: State)
    requires Inv(g, roots, universe, s) && Fresh(s)
    ensures Inv(g, roots, universe, Entered(g, s)) && !Fresh(Entered(g, s))
  {
    hide Reach, OwnersOk, EdgesOk, LowOk, FromRoots, IsComponent;
    EnterStack(g, s);
    EnterFrames(g, s);
    EnterOwners(g, s);
    EnterEdges(g, s);
    EnterLow(g, s);
    hide StackOk, FramesOk;
    assert DoneOk(g, Entered(g, s));
    assert RootsOk(g, roots, universe, Entered(g, s));
  }

  // ---------- looking at a successor ----------

  /** The node at the end of the path has been visited and still has successors to look at. */
  ghost predicate Looking(g: Graph, s: State) {
    FramesOk(g, s) && !Fresh(s) && s.dfs != [] && s.dfs[|s.dfs| - 1].edges != []
  }

  ghost function Shortened(s: State): (r: seq<Frame>)
    requires s.dfs != [] && s.dfs[|s.dfs| - 1].edges != []
    ensures |r| == |s.dfs|
  {
    var f := s.dfs[|s.dfs| - 1];
    s.dfs[|s.dfs| - 1 := f.(edges := f.edges[..|f.edges| - 1])]
  }

  ghost function NextEdge(s: State): Node
    requires s.dfs != [] && s.dfs[|s.dfs| - 1].edges != []
  {
    var f := s.dfs[|s.dfs| - 1];
    f.edges[|f.edges| - 1]
  }

  ghost function Descended(s: State): State
    requires s.dfs != [] && s.dfs[|s.dfs| - 1].edges != []
  {
    s.(dfs := Shortened(s) + [Frame(NextEdge(s), [])], meta := s.meta[NextEdge(s) := Meta(-1, -1, false)])
  }

  ghost function Looked(s: State): State
    requires s.dfs != [] && s.dfs[|s.dfs| - 1].edges != [] && NextEdge(s) in s.meta && s.dfs[|s.dfs| - 1].node in s.meta
  {
    var v, w := s.dfs[|s.dfs| - 1].node, NextEdge(s);
    s.(dfs := Shortened(s),
       meta := if s.meta[w].onStack then s.meta[v := s.meta[v].(lowlink := Min2(s.meta[v].lowlink, s.meta[w].index))] else s.meta)
  }

  /** The last successor of the last node was taken off: a new node extends the path, a known one may lower the lowlink. */
  ghost predicate LookedOnce(s: State, t: State, recursing: bool) {
    && s.dfs != [] && s.dfs[|s.dfs| - 1].edges != []
    && recursing == !Visited(s, NextEdge(s))
    && (recursing ==> t == Descended(s))
    && (!recursing ==> s.dfs[|s.dfs| - 1].node in s.meta && t == Looked(s))
  }

  function Min2(a: int, b: int): int {
    if a <= b then a else b
  }

  /** One successor more has been looked at. */
  lemma OneMoreExplored(g: Graph, s: State, t: State, i: nat, p: nat, y: Node)
    requires Looking(g, s) && FramesOk(g, t) && t.stack == s.stack && t.at == s.at && |t.dfs| >= |s.dfs| && t.dfs[..|s.dfs|] == Shortened(s)
    requires i < |t.at| <= |t.dfs| && p < |t.stack| && InPart(t, i, p) && y in Explored(g, t, i, p)
    ensures InPart(s, i, p) && i < |s.at| <= |s.dfs| && p < |s.stack|
    ensures y in Explored(g, s, i, p) || (i == |s.at| - 1 && y == NextEdge(s))
  {
    assert t.dfs[i] == Shortened(s)[i];
    if i == |s.at| - 1 {
      var f := s.dfs[i];
      assert f.edges <= g(f.node);
      var n := |f.edges|;
      OneEarlier(g(f.node), n);
      assert g(f.node)[n - 1] == f.edges[n - 1];
    }
  }

  lemma OneEarlier(s: seq<Node>, n: nat)
    requires 0 < n <= |s|
    ensures s[n - 1..] == [s[n - 1]] + s[n..]
  {
  }

  lemma DescendStack(g: Graph, s: State)
    requires StackOk(s) && Looking(g, s) && !Visited(s, NextEdge(s))
    ensures StackOk(Descended(s))
  {
    hide FramesOk;
    var w, t := NextEdge(s), Descended(s);
    assert forall x :: Done(t, x) <==> Done(s, x);
    hide Done;
    forall p | 0 <= p < |s.stack| ensures s.stack[p] != w {
      assert s.stack[p] in s.stack;
    }
  }

  lemma ShortenedFrames(s: State)
    requires s.dfs != [] && s.dfs[|s.dfs| - 1].edges != []
    ensures forall i :: 0 <= i < |s.dfs| ==> Shortened(s)[i].node == s.dfs[i].node && Shortened(s)[i].edges <= s.dfs[i].edges
  {
  }

  lemma NextIsSuccessor(g: Graph, s: State)
    requires Looking(g, s)
    ensures NextEdge(s) in g(s.dfs[|s.dfs| - 1].node)
  {
    var f := s.dfs[|s.dfs| - 1];
    assert f.edges <= g(f.node);
    assert g(f.node)[|f.edges| - 1] == NextEdge(s);
  }

  lemma DescendFrames(g: Graph, s: State)
    requires Looking(g, s) && !Visited(s, NextEdge(s))
    ensures FramesOk(g, Descended(s)) && Fresh(Descended(s))
  {
    NextIsSuccessor(g, s);
    ShortenedFrames(s);
    hide Shortened, NextEdge;
    var t := Descended(s);
    assert forall i :: 0 <= i < |s.dfs| ==> t.dfs[i] == Shortened(s)[i];
    assert forall x :: Visited(t, x) <==> Visited(s, x);
  }

  lemma DescendOwners(g: Graph, s: State)
    requires StackOk(s) && Looking(g, s) && OwnersOk(g, s)
    ensures OwnersOk(g, Descended(s))
  {
    hide StackOk, Reach, FramesOk;
    var t := Descended(s);
    forall i, p | InPart(t, i, p) ensures Reach(g, t.stack[p], t.dfs[i].node) && Reach(g, t.dfs[i].node, t.stack[p]) {
      assert InPart(s, i, p) by { assert |s.at| <= |s.dfs| by { LookingLengths(g, s); } }
      assert t.dfs[i].node == s.dfs[i].node by { LookingLengths(g, s); }
    }
  }

  lemma LookingLengths(g: Graph, s: State)
    requires Looking(g, s)
    ensures |s.at| == |s.dfs|
  {
  }

  lemma DescendEdges(g: Graph, s: State)
    requires StackOk(s) && Looking(g, s) && EdgesOk(g, s) && !Visited(s, NextEdge(s))
    requires StackOk(Descended(s)) && FramesOk(g, Descended(s)) && Fresh(Descended(s))
    ensures EdgesOk(g, Descended(s))
  {
    hide StackOk;
    var t := Descended(s);
    forall i, p, y | InPart(t, i, p) && y in Explored(g, t, i, p) ensures Visited(t, t.dfs[i].node) && EdgeOk(t, i, y) {
      OneMoreExplored(g, s, t, i, p, y);
      PathVisited(g, t, i);
      PathVisited(g, s, i);
      if y in Explored(g, s, i, p) {
        assert EdgeOk(s, i, y);
      }
    }
  }

  lemma PathVisited(g: Graph, s: State, i: nat)
    requires StackOk(s) && FramesOk(g, s) && i < |s.at|
    ensures Visited(s, s.dfs[i].node) && s.dfs[i].node in s.stack && s.stack[s.at[i]] == s.dfs[i].node
  {
  }

  lemma DescendLow(g: Graph, s: State)
    requires StackOk(s) && Looking(g, s) && LowOk(g, s) && !Visited(s, NextEdge(s))
    requires StackOk(Descended(s)) && FramesOk(g, Descended(s))
    ensures LowOk(g, Descended(s))
  {
    hide Reach;
    var t := Descended(s);
    forall i | 0 <= i < |t.at| ensures Visited(t, t.dfs[i].node) && LowOf(g, t, i) {
      PathVisited(g, t, i);
      PathVisited(g, s, i);
      assert LowOf(g, s, i);
      DescendLowOf(g, s, i);
    }
  }

  lemma DescendLowOf(g: Graph, s: State, i: nat)
    requires StackOk(s) && Looking(g, s) && !Visited(s, NextEdge(s)) && i < |s.at| && Visited(s, s.dfs[i].node) && LowOf(g, s, i)
    requires StackOk(Descended(s)) && FramesOk(g, Descended(s)) && Visited(Descended(s), Descended(s).dfs[i].node)
    ensures LowOf(g, Descended(s), i)
  {
    hide Reach;
    var t := Descended(s);
    var q :| 0 <= q <= s.at[i] && s.meta[s.stack[q]].index == s.meta[s.dfs[i].node].lowlink && Reach(g, s.dfs[i].node, s.stack[q]);
    PathVisited(g, s, i);
    assert t.dfs[i].node == s.dfs[i].node;
    assert s.stack[q] in s.stack;
    assert t.stack[q] == s.stack[q] && t.at[i] == s.at[i];
  }

  lemma Descend(g: Graph, roots: set<Node>, universe: set<Node>, s: State)
    requires Inv(g, roots, universe, s) && Looking(g, s) && !Visited(s, NextEdge(s)) && Closed(g, universe)
    ensures Inv(g, roots, universe, Descended(s)) && Fresh(Descended(s))
  {
    hide Reach, OwnersOk, EdgesOk, LowOk, IsComponent, StackOk, FramesOk, FromRoots;
    LookingLengths(g, s);
    DescendStack(g, s);
    DescendFrames(g, s);
    DescendOwners(g, s);
    DescendEdges(g, s);
    DescendLow(g, s);
    DescendRoots(g, roots, universe, s);
    assert DoneOk(g, Descended(s));
  }

  lemma DescendRoots(g: Graph, roots: set<Node>, universe: set<Node>, s: State)
    requires RootsOk(g, roots, universe, s) && Looking(g, s) && Closed(g, universe)
    ensures RootsOk(g, roots, universe, Descended(s))
  {
    hide Reach;
    var f, w := s.dfs[|s.dfs| - 1], NextEdge(s);
    assert w in g(f.node) by { assert g(f.node)[|f.edges| - 1] == w; }
    ReachEdge(g, f.node, w);
    var r :| r in roots && Reach(g, r, f.node);
    ReachTransitive(g, r, f.node, w);
  }

  // ---------- a successor that has been visited ----------

  /** Only the last node's lowlink differs, and not upwards. */
  ghost predicate LowerLast(g: Graph, s: State, t: State) {
    && Looking(g, s) && |s.at| == |s.dfs|
    && t == s.(dfs := Shortened(s), meta := t.meta)
    && t.meta.Keys == s.meta.Keys
    && (forall x :: x in s.meta ==> x in t.meta && t.meta[x].index == s.meta[x].index && t.meta[x].onStack == s.meta[x].onStack)
    && (forall x :: x in s.meta && x != s.dfs[|s.dfs| - 1].node ==> t.meta[x] == s.meta[x])
    && s.dfs[|s.dfs| - 1].node in s.meta
    && t.meta[s.dfs[|s.dfs| - 1].node].lowlink <= s.meta[s.dfs[|s.dfs| - 1].node].lowlink
  }

  lemma LookLowers(g: Graph, s: State)
    requires StackOk(s) && Looking(g, s) && Visited(s, NextEdge(s))
    ensures s.dfs[|s.dfs| - 1].node in s.meta && LowerLast(g, s, Looked(s))
  {
    PathVisited(g, s, |s.at| - 1);
  }

  lemma LookStack(g: Graph, s: State, t: State)
    requires StackOk(s) && LowerLast(g, s, t)
    ensures StackOk(t)
  {
    hide FramesOk;
    assert forall x :: Done(t, x) <==> Done(s, x);
    hide Done;
    assert forall x :: Visited(t, x) <==> Visited(s, x);
  }

  lemma LookFrames(g: Graph, s: State, t: State)
    requires LowerLast(g, s, t)
    ensures FramesOk(g, t) && !Fresh(t)
  {
    assert forall i :: 0 <= i < |s.dfs| ==> t.dfs[i].node == s.dfs[i].node && t.dfs[i].edges <= s.dfs[i].edges;
    assert forall x :: Visited(t, x) <==> Visited(s, x);
  }

  lemma LookOwners(g: Graph, s: State, t: State)
    requires LowerLast(g, s, t) && OwnersOk(g, s)
    ensures OwnersOk(g, t)
  {
    hide Reach, FramesOk;
    forall i, p | InPart(t, i, p) ensures Reach(g, t.stack[p], t.dfs[i].node) && Reach(g, t.dfs[i].node, t.stack[p]) {
      assert InPart(s, i, p) && t.dfs[i].node == s.dfs[i].node;
    }
  }

  lemma LookEdges(g: Graph, s: State, t: State)
    requires StackOk(s) && LowerLast(g, s, t) && EdgesOk(g, s) && StackOk(t) && FramesOk(g, t)
    requires Visited(s, NextEdge(s))
    requires s.meta[NextEdge(s)].onStack ==> t.meta[s.dfs[|s.dfs| - 1].node].lowlink <= s.meta[NextEdge(s)].index
    ensures EdgesOk(g, t)
  {
    hide StackOk, EdgeOk;
    forall i, p, y | InPart(t, i, p) && y in Explored(g, t, i, p) ensures Visited(t, t.dfs[i].node) && EdgeOk(t, i, y) {
      OneMoreExplored(g, s, t, i, p, y);
      PathVisited(g, t, i);
      PathVisited(g, s, i);
      LookEdge(g, s, t, i, y);
    }
  }

  lemma LookEdge(g: Graph, s: State, t: State, i: nat, y: Node)
    requires LowerLast(g, s, t) && i < |s.at| && Visited(s, s.dfs[i].node) && Visited(s, NextEdge(s))
    requires s.meta[NextEdge(s)].onStack ==> t.meta[s.dfs[|s.dfs| - 1].node].lowlink <= s.meta[NextEdge(s)].index
    requires EdgeOk(s, i, y) || (i == |s.at| - 1 && y == NextEdge(s))
    ensures Visited(t, t.dfs[i].node) && EdgeOk(t, i, y)
  {
    hide FramesOk;
    assert t.dfs[i].node == s.dfs[i].node;
  }

  lemma LookLow(g: Graph, s: State, t: State)
    requires StackOk(s) && LowerLast(g, s, t) && LowOk(g, s) && StackOk(t) && FramesOk(g, t) && Visited(s, NextEdge(s))
    requires var v, w := s.dfs[|s.dfs| - 1].node, NextEdge(s);
             t.meta[v].lowlink == s.meta[v].lowlink || (s.meta[w].onStack && t.meta[v].lowlink == s.meta[w].index)
    ensures LowOk(g, t)
  {
    hide Reach, StackOk;
    forall i | 0 <= i < |t.at| ensures Visited(t, t.dfs[i].node) && LowOf(g, t, i) {
      PathVisited(g, t, i);
      PathVisited(g, s, i);
      assert LowOf(g, s, i);
      LookLowOf(g, s, t, i);
    }
  }

  lemma LookLowOf(g: Graph, s: State, t: State, i: nat)
    requires StackOk(s) && LowerLast(g, s, t) && StackOk(t) && FramesOk(g, t) && Visited(s, NextEdge(s)) && i < |t.at|
    requires Visited(s, s.dfs[i].node) && LowOf(g, s, i) && Visited(t, t.dfs[i].node)
    requires var v, w := s.dfs[|s.dfs| - 1].node, NextEdge(s);
             t.meta[v].lowlink == s.meta[v].lowlink || (s.meta[w].onStack && t.meta[v].lowlink == s.meta[w].index)
    ensures LowOf(g, t, i)
  {
    hide Reach, StackOk, FramesOk;
    assert t.dfs[i].node == s.dfs[i].node;
    if i < |s.at| - 1 {
      PathDistinct(g, s, i, |s.at| - 1);
    }
    if t.meta[s.dfs[i].node].lowlink == s.meta[s.dfs[i].node].lowlink {
      SameLow(g, s, t, i);
    } else {
      LowerLow(g, s, t);
    }
  }

  lemma SameLow(g: Graph, s: State, t: State, i: nat)
    requires StackOk(s) && LowerLast(g, s, t) && StackOk(t) && FramesOk(g, t) && i < |t.at|
    requires Visited(s, s.dfs[i].node) && LowOf(g, s, i) && Visited(t, t.dfs[i].node)
    requires t.meta[s.dfs[i].node].lowlink == s.meta[s.dfs[i].node].lowlink
    ensures LowOf(g, t, i)
  {
    hide Reach, FramesOk;
    assert t.dfs[i].node == s.dfs[i].node;
    var q := LowWitness(g, s, i);
    assert t.stack[q] == s.stack[q];
  }

  lemma LowerLow(g: Graph, s: State, t: State)
    requires StackOk(s) && LowerLast(g, s, t) && StackOk(t) && FramesOk(g, t) && Visited(s, NextEdge(s))
    requires var v, w, i := s.dfs[|s.dfs| - 1].node, NextEdge(s), |s.at| - 1;
             Visited(s, v) && LowOf(g, s, i) && s.meta[w].onStack && t.meta[v].lowlink == s.meta[w].index != s.meta[v].lowlink
             && Visited(t, t.dfs[i].node)
    ensures LowOf(g, t, |s.at| - 1)
  {
    hide Reach;
    var f, w, i := s.dfs[|s.dfs| - 1], NextEdge(s), |s.at| - 1;
    assert w in g(f.node) by { assert f.edges <= g(f.node); assert g(f.node)[|f.edges| - 1] == w; }
    ReachEdge(g, f.node, w);
    assert w in s.stack;
    var q :| 0 <= q < |s.stack| && s.stack[q] == w;
    assert s.meta[w].index < s.meta[f.node].index && s.stack[s.at[i]] == f.node && t.dfs[i].node == f.node;
    assert q <= s.at[i];
  }

  lemma Look(g: Graph, roots: set<Node>, universe: set<Node>, s: State)
    requires Inv(g, roots, universe, s) && Looking(g, s) && Visited(s, NextEdge(s))
    ensures s.dfs[|s.dfs| - 1].node in s.meta && Inv(g, roots, universe, Looked(s)) && !Fresh(Looked(s))
  {
    hide Reach, OwnersOk, EdgesOk, LowOk, IsComponent, StackOk, FramesOk, FromRoots;
    LookLowers(g, s);
    var t := Looked(s);
    LookStack(g, s, t);
    LookFrames(g, s, t);
    LookOwners(g, s, t);
    LookEdges(g, s, t);
    LookLow(g, s, t);
    assert RootsOk(g, roots, universe, t) by {
      forall i | 0 <= i < |t.dfs| ensures t.dfs[i].node in universe && FromRoots(g, roots, t.dfs[i].node) {
        assert t.dfs[i].node == s.dfs[i].node;
      }
    }
    assert DoneOk(g, t);
  }

  // ---------- a component is complete ----------

  /** All successors of the last node of the path have been looked at. */
  ghost predicate Exhausted(g: Graph, s: State) {
    FramesOk(g, s) && !Fresh(s) && s.dfs != [] && s.dfs[|s.dfs| - 1].edges == []
  }

  ghost predicate Lists(c: seq<Node>, part: seq<Node>) {
    (forall x :: x in c <==> x in part) && forall i, j :: 0 <= i < j < |c| ==> c[i] != c[j]
  }

  /** The top of the stack, down to the last node of the path, has become a component. */
  ghost predicate IsCompleted(s: State, t: State, c: seq<Node>) {
    && |s.at| == |s.dfs| && s.at != [] && s.at[|s.at| - 1] < |s.stack|
    && var n, lo := |s.at| - 1, s.at[|s.at| - 1];
       && t == State(t.meta, s.stack[..lo], s.dfs[..n], s.index, s.sccs + [c], s.at[..n])
       && Lists(c, s.stack[lo..])
       && t.meta.Keys == s.meta.Keys
       && forall x :: x in s.meta ==> x in t.meta && t.meta[x] == if x in c then s.meta[x].(onStack := false) else s.meta[x]
  }

  lemma StackDistinct(s: State)
    requires StackOk(s)
    ensures forall p :: 0 <= p < |s.stack| ==> s.stack[p] in s.meta
    ensures forall p, q :: 0 <= p < q < |s.stack| ==> s.stack[p] != s.stack[q]
  {
  }

  lemma StackTop(s: State, lo: nat, y: Node)
    requires StackOk(s) && lo < |s.stack| && Visited(s, y) && s.stack[lo] in s.meta
    requires s.meta[y].onStack ==> s.meta[y].index >= s.meta[s.stack[lo]].index
    ensures Done(s, y) || y in s.stack[lo..]
  {
    if s.meta[y].onStack {
      var q :| 0 <= q < |s.stack| && s.stack[q] == y;
      assert q >= lo;
      assert s.stack[lo..][q - lo] == y;
    } else {
      NotOnStack(s, y);
    }
  }

  /** Nothing leads out of the top of the stack but to finished components. */
  lemma TopIsClosed(g: Graph, s: State, x: Node, y: Node)
    requires StackOk(s) && FramesOk(g, s) && EdgesOk(g, s) && Exhausted(g, s)
    requires s.meta[s.stack[s.at[|s.at| - 1]]].lowlink == s.meta[s.stack[s.at[|s.at| - 1]]].index
    requires x in s.stack[s.at[|s.at| - 1]..] && y in g(x)
    ensures Done(s, y) || y in s.stack[s.at[|s.at| - 1]..]
  {
    hide StackOk;
    var i, lo := |s.at| - 1, s.at[|s.at| - 1];
    var k :| 0 <= k < |s.stack| - lo && s.stack[lo..][k] == x;
    var p := lo + k;
    assert InPart(s, i, p) && s.stack[p] == x && s.dfs[i].node == s.stack[lo];
    PathVisited(g, s, i);
    assert g(x)[0..] == g(x);
    assert y in Explored(g, s, i, p);
    assert EdgeOk(s, i, y);
    hide FramesOk, EdgesOk;
    StackTop(s, lo, y);
  }

  lemma NotOnStack(s: State, y: Node)
    requires StackOk(s) && Visited(s, y) && !s.meta[y].onStack
    ensures Done(s, y)
  {
  }

  lemma DoneIsClosed(g: Graph, s: State, x: Node, y: Node)
    requires DoneOk(g, s) && Done(s, x) && y in g(x)
    ensures Done(s, y)
  {
    var a :| 0 <= a < |s.sccs| && x in s.sccs[a];
    assert InFirst(s.sccs, a + 1, y);
  }

  /** The top of the stack is a component: its nodes all reach one another, and nothing else reaches back. */
  lemma TopIsComponent(g: Graph, s: State, c: seq<Node>)
    requires StackOk(s) && FramesOk(g, s) && OwnersOk(g, s) && EdgesOk(g, s) && DoneOk(g, s) && Exhausted(g, s)
    requires s.meta[s.stack[s.at[|s.at| - 1]]].lowlink == s.meta[s.stack[s.at[|s.at| - 1]]].index
    requires Lists(c, s.stack[s.at[|s.at| - 1]..])
    ensures IsComponent(g, c)
  {
    var lo := s.at[|s.at| - 1];
    var v := s.stack[lo];
    assert v in s.stack[lo..] by { assert s.stack[lo..][0] == v; }
    forall u, w | u in c ensures w in c <==> Reach(g, u, w) && Reach(g, w, u) {
      if w in c {
        TopConnected(g, s, u);
        TopConnected(g, s, w);
        ReachTransitive(g, u, v, w);
        ReachTransitive(g, w, v, u);
      }
      if Reach(g, u, w) && Reach(g, w, u) {
        NothingComesBack(g, s, u, w);
      }
    }
  }

  lemma TopConnected(g: Graph, s: State, x: Node)
    requires FramesOk(g, s) && OwnersOk(g, s) && !Fresh(s) && s.at != [] && x in s.stack[s.at[|s.at| - 1]..]
    ensures Reach(g, x, s.stack[s.at[|s.at| - 1]]) && Reach(g, s.stack[s.at[|s.at| - 1]], x)
  {
    hide Reach;
    var i, lo := |s.at| - 1, s.at[|s.at| - 1];
    var k :| 0 <= k < |s.stack| - lo && s.stack[lo..][k] == x;
    assert InPart(s, i, lo + k) && s.stack[lo + k] == x;
  }

  lemma NothingComesBack(g: Graph, s: State, u: Node, w: Node)
    requires StackOk(s) && FramesOk(g, s) && EdgesOk(g, s) && DoneOk(g, s) && Exhausted(g, s)
    requires s.meta[s.stack[s.at[|s.at| - 1]]].lowlink == s.meta[s.stack[s.at[|s.at| - 1]]].index
    requires u in s.stack[s.at[|s.at| - 1]..] && Reach(g, u, w) && Reach(g, w, u)
    ensures w in s.stack[s.at[|s.at| - 1]..]
  {
    hide Reach;
    var top := s.stack[s.at[|s.at| - 1]..];
    var finished := set x | x in s.meta && Done(s, x);
    var closed := finished + set x | x in top;
    assert forall x :: x in closed <==> Done(s, x) || x in top by {
      assert forall x :: Done(s, x) ==> Visited(s, x);
    }
    forall x, y | x in closed && y in g(x) ensures y in closed {
      if Done(s, x) { DoneIsClosed(g, s, x, y); } else { TopIsClosed(g, s, x, y); }
    }
    ReachStaysIn(g, closed, u, w);
    assert u in s.stack;
    DoneStays(g, s, w, u);
  }

  lemma DoneStays(g: Graph, s: State, w: Node, u: Node)
    requires StackOk(s) && DoneOk(g, s) && Reach(g, w, u)
    ensures Done(s, w) ==> Done(s, u)
  {
    hide Reach;
    var finished := set x | x in s.meta && Done(s, x);
    forall x, y | x in finished && y in g(x) ensures y in finished {
      DoneIsClosed(g, s, x, y);
      assert Visited(s, y);
    }
    if Done(s, w) {
      assert Visited(s, w);
      ReachStaysIn(g, finished, w, u);
    }
  }

  lemma CompleteStack(g: Graph, s: State, t: State, c: seq<Node>)
    requires StackOk(s) && FramesOk(g, s) && Exhausted(g, s) && IsCompleted(s, t, c)
    ensures StackOk(t)
  {
    hide FramesOk, Exhausted, Lists;
    SplitStack(g, s, t, c);
    DoneMore(s, t, c);
    hide Done;
    assert forall x :: Visited(t, x) <==> Visited(s, x);
    forall p | 0 <= p < |t.stack| ensures t.stack[p] == s.stack[p] && t.stack[p] in t.stack && t.stack[p] in s.stack {
    }
  }

  lemma SplitStack(g: Graph, s: State, t: State, c: seq<Node>)
    requires StackOk(s) && IsCompleted(s, t, c)
    ensures forall x :: x in s.stack <==> x in t.stack || x in c
    ensures forall x :: x in t.stack ==> x !in c
  {
    var lo := s.at[|s.at| - 1];
    assert s.stack == s.stack[..lo] + s.stack[lo..];
    forall x | x in t.stack ensures x !in c {
      var q :| 0 <= q < |t.stack| && t.stack[q] == x;
      PathKeeps(g, s, t, c, q);
    }
  }

  lemma DoneMore(s: State, t: State, c: seq<Node>)
    requires t.sccs == s.sccs + [c]
    ensures forall x :: Done(t, x) <==> Done(s, x) || x in c
  {
    assert t.sccs[|s.sccs|] == c;
    forall x ensures Done(t, x) <==> Done(s, x) || x in c {
      if Done(s, x) {
        var a :| 0 <= a < |s.sccs| && x in s.sccs[a];
        assert t.sccs[a] == s.sccs[a];
      }
    }
  }

  lemma CompleteFrames(g: Graph, s: State, t: State, c: seq<Node>)
    requires Exhausted(g, s) && IsCompleted(s, t, c)
    ensures FramesOk(g, t) && !Fresh(t)
  {
    assert forall x :: Visited(t, x) <==> Visited(s, x);
  }

  lemma CompletePart(s: State, t: State, c: seq<Node>, i: int, p: int)
    requires IsCompleted(s, t, c) && InPart(t, i, p)
    ensures InPart(s, i, p) && t.stack[p] == s.stack[p] && t.dfs[i] == s.dfs[i] && t.at[i] == s.at[i]
  {
  }

  lemma CompleteOwners(g: Graph, s: State, t: State, c: seq<Node>)
    requires IsCompleted(s, t, c) && OwnersOk(g, s)
    ensures OwnersOk(g, t)
  {
    hide Reach, IsCompleted;
    forall i, p | InPart(t, i, p) ensures Reach(g, t.stack[p], t.dfs[i].node) && Reach(g, t.dfs[i].node, t.stack[p]) {
      CompletePart(s, t, c, i, p);
    }
  }

  /** The nodes left on the path are not in the component. */
  lemma PathKeeps(g: Graph, s: State, t: State, c: seq<Node>, q: nat)
    requires StackOk(s) && IsCompleted(s, t, c) && q < |t.stack|
    ensures t.stack[q] == s.stack[q] && t.stack[q] !in c && s.stack[q] in s.meta && t.meta[t.stack[q]] == s.meta[s.stack[q]]
  {
    hide StackOk;
    StackDistinct(s);
    var lo := s.at[|s.at| - 1];
    var top := s.stack[lo..];
    assert forall k :: 0 <= k < |top| ==> top[k] == s.stack[lo + k] && top[k] != s.stack[q];
  }

  lemma CompleteEdges(g: Graph, s: State, t: State, c: seq<Node>)
    requires StackOk(s) && FramesOk(g, s) && EdgesOk(g, s) && Exhausted(g, s) && IsCompleted(s, t, c)
    requires StackOk(t) && FramesOk(g, t)
    ensures EdgesOk(g, t)
  {
    hide StackOk, IsCompleted, Lists, EdgeOk;
    forall i, p, y | InPart(t, i, p) && y in Explored(g, t, i, p) ensures Visited(t, t.dfs[i].node) && EdgeOk(t, i, y) {
      CompletePart(s, t, c, i, p);
      PathVisited(g, t, i);
      PathVisited(g, s, i);
      PathKeeps(g, s, t, c, t.at[i]);
      assert y in Explored(g, s, i, p);
      assert EdgeOk(s, i, y);
      CompleteEdge(g, s, t, c, i, y);
    }
  }

  lemma CompleteEdge(g: Graph, s: State, t: State, c: seq<Node>, i: nat, y: Node)
    requires Exhausted(g, s) && IsCompleted(s, t, c) && i < |t.at| && Visited(s, s.dfs[i].node) && EdgeOk(s, i, y)
    requires t.dfs[i] == s.dfs[i] && s.dfs[i].node !in c
    ensures Visited(t, t.dfs[i].node) && EdgeOk(t, i, y)
  {
    hide FramesOk;
  }

  lemma CompleteLow(g: Graph, s: State, t: State, c: seq<Node>)
    requires StackOk(s) && FramesOk(g, s) && LowOk(g, s) && Exhausted(g, s) && IsCompleted(s, t, c)
    requires StackOk(t) && FramesOk(g, t)
    ensures LowOk(g, t)
  {
    hide Reach, StackOk, IsCompleted, Lists;
    forall i | 0 <= i < |t.at| ensures Visited(t, t.dfs[i].node) && LowOf(g, t, i) {
      PathVisited(g, t, i);
      CompleteLowOf(g, s, t, c, i);
    }
  }

  lemma CompleteLowOf(g: Graph, s: State, t: State, c: seq<Node>, i: nat)
    requires StackOk(s) && FramesOk(g, s) && LowOk(g, s) && Exhausted(g, s) && IsCompleted(s, t, c) && i < |t.at|
    requires StackOk(t) && FramesOk(g, t) && Visited(t, t.dfs[i].node)
    ensures LowOf(g, t, i)
  {
    hide Reach, StackOk, Lists;
    PathVisited(g, s, i);
    assert LowOf(g, s, i);
    var q := LowWitness(g, s, i);
    PathKeeps(g, s, t, c, q);
    PathKeeps(g, s, t, c, t.at[i]);
  }

  lemma CompleteDone(g: Graph, s: State, t: State, c: seq<Node>)
    requires StackOk(s) && FramesOk(g, s) && OwnersOk(g, s) && EdgesOk(g, s) && DoneOk(g, s) && Exhausted(g, s) && IsCompleted(s, t, c)
    requires s.meta[s.stack[s.at[|s.at| - 1]]].lowlink == s.meta[s.stack[s.at[|s.at| - 1]]].index
    ensures DoneOk(g, t)
  {
    TopIsComponent(g, s, c);
    hide IsComponent, OwnersOk, Reach;
    var m := |s.sccs|;
    forall a, x, y | 0 <= a < |t.sccs| && x in t.sccs[a] && y in g(x) ensures InFirst(t.sccs, a + 1, y) {
      if a < m {
        assert InFirst(s.sccs, a + 1, y);
        var b :| 0 <= b < a + 1 && b < m && y in s.sccs[b];
        assert t.sccs[b] == s.sccs[b];
      } else {
        TopIsClosed(g, s, x, y);
        if y in c {
          assert t.sccs[m] == c;
        } else {
          var b :| 0 <= b < m && y in s.sccs[b];
          assert t.sccs[b] == s.sccs[b];
        }
      }
    }
    forall a, b, x | 0 <= a < b < |t.sccs| && x in t.sccs[a] ensures x !in t.sccs[b] {
      if b == m {
        assert Done(s, x);
        assert forall y :: y in c ==> y in s.stack;
      }
    }
  }

  lemma Complete(g: Graph, roots: set<Node>, universe: set<Node>, s: State, t: State, c: seq<Node>)
    requires Inv(g, roots, universe, s) && Exhausted(g, s) && IsCompleted(s, t, c)
    requires s.meta[s.dfs[|s.dfs| - 1].node].lowlink == s.meta[s.dfs[|s.dfs| - 1].node].index
    ensures Inv(g, roots, universe, t) && !Fresh(t)
  {
    hide Reach, OwnersOk, EdgesOk, LowOk, IsComponent, StackOk, FromRoots, DoneOk, Lists;
    PathVisited(g, s, |s.at| - 1);
    hide FramesOk;
    CompleteStack(g, s, t, c);
    CompleteFrames(g, s, t, c);
    CompleteOwners(g, s, t, c);
    CompleteEdges(g, s, t, c);
    CompleteLow(g, s, t, c);
    CompleteDone(g, s, t, c);
    assert RootsOk(g, roots, universe, t);
  }

  // ---------- back to the parent ----------

  /** The last node of the path stays on the stack, and its lowlink goes to its parent. */
  ghost predicate IsBacktracked(s: State, t: State) {
    && |s.at| == |s.dfs| >= 2
    && var n := |s.at| - 1;
       var u, v := s.dfs[n - 1].node, s.dfs[n].node;
       && t == s.(dfs := s.dfs[..n], at := s.at[..n], meta := t.meta)
       && u in s.meta && v in s.meta
       && t.meta == s.meta[u := s.meta[u].(lowlink := Min2(s.meta[u].lowlink, s.meta[v].lowlink))]
  }

  lemma {:induction false} OwnerOf(g: Graph, s: State, q: nat, n: nat) returns (j: nat)
    requires FramesOk(g, s) && n < |s.at| && q < s.at[n]
    ensures j < n && InPart(s, j, q)
  {
    if q >= s.at[n - 1] {
      j := n - 1;
    } else {
      j := OwnerOf(g, s, q, n - 1);
    }
  }

  lemma {:induction false} PathReach(g: Graph, s: State, j: nat, k: nat)
    requires FramesOk(g, s) && j <= k < |s.dfs|
    ensures Reach(g, s.dfs[j].node, s.dfs[k].node)
  {
    hide Reach;
    if j == k {
      ReachSelf(g, s.dfs[j].node);
    } else {
      PathReach(g, s, j, k - 1);
      assert s.dfs[k - 1 + 1].node in g(s.dfs[k - 1].node);
      ReachEdge(g, s.dfs[k - 1].node, s.dfs[k].node);
      ReachTransitive(g, s.dfs[j].node, s.dfs[k - 1].node, s.dfs[k].node);
    }
  }

  /** A lowlink below the index leads to a place further down the stack. */
  lemma LowerPlace(g: Graph, s: State, n: nat) returns (q: nat)
    requires StackOk(s) && FramesOk(g, s) && LowOk(g, s) && n < |s.at| && s.dfs[n].node in s.meta
    requires s.meta[s.dfs[n].node].lowlink < s.meta[s.dfs[n].node].index
    ensures q < s.at[n] < |s.stack| && Reach(g, s.dfs[n].node, s.stack[q])
  {
    hide Reach, StackOk, FramesOk;
    PathVisited(g, s, n);
    assert LowOf(g, s, n);
    q := LowWitness(g, s, n);
    LowerIsBelow(g, s, n, q);
  }

  /** A finished node with a lower lowlink is strongly connected with its parent. */
  lemma ParentConnected(g: Graph, s: State)
    requires StackOk(s) && FramesOk(g, s) && OwnersOk(g, s) && LowOk(g, s) && Exhausted(g, s)
    requires s.meta[s.stack[s.at[|s.at| - 1]]].lowlink < s.meta[s.stack[s.at[|s.at| - 1]]].index
    ensures |s.at| == |s.dfs| >= 2
    ensures Reach(g, s.dfs[|s.at| - 1].node, s.dfs[|s.at| - 2].node) && Reach(g, s.dfs[|s.at| - 2].node, s.dfs[|s.at| - 1].node)
  {
    hide Reach, StackOk, LowOk;
    var n := |s.at| - 1;
    PathVisited(g, s, n);
    var q := LowerPlace(g, s, n);
    var j := OwnerOf(g, s, q, n);
    OwnerReaches(g, s, q, j, n);
    EdgeOnPath(g, s, n - 1);
    ReachTransitive(g, s.dfs[n].node, s.stack[q], s.dfs[n - 1].node);
  }

  /** From a place of the stack its owner is reached, and from there the nodes further on the path. */
  lemma OwnerReaches(g: Graph, s: State, q: nat, j: nat, n: nat)
    requires FramesOk(g, s) && OwnersOk(g, s) && j < n <= |s.at| <= |s.dfs| && InPart(s, j, q)
    ensures Reach(g, s.stack[q], s.dfs[n - 1].node)
  {
    hide Reach;
    PathReach(g, s, j, n - 1);
    ReachTransitive(g, s.stack[q], s.dfs[j].node, s.dfs[n - 1].node);
  }

  lemma LowerIsBelow(g: Graph, s: State, n: nat, q: nat)
    requires StackOk(s) && FramesOk(g, s) && n < |s.at| && q < |s.stack|
    requires Visited(s, s.stack[q]) && Visited(s, s.dfs[n].node) && s.meta[s.stack[q]].index < s.meta[s.dfs[n].node].index
    ensures q < s.at[n]
  {
    assert s.stack[s.at[n]] == s.dfs[n].node;
  }

  lemma BacktrackStack(g: Graph, s: State, t: State)
    requires StackOk(s) && IsBacktracked(s, t)
    ensures StackOk(t)
  {
    assert forall x :: Done(t, x) <==> Done(s, x);
    hide Done;
    assert forall x :: Visited(t, x) <==> Visited(s, x);
  }

  lemma BacktrackFrames(g: Graph, s: State, t: State)
    requires FramesOk(g, s) && IsBacktracked(s, t)
    ensures FramesOk(g, t) && !Fresh(t)
  {
    assert forall x :: Visited(t, x) <==> Visited(s, x);
  }

  /** A place of the stack after going back: its old owner, or the node that was left. */
  lemma BacktrackPart(g: Graph, s: State, t: State, i: int, p: int)
    requires FramesOk(g, s) && IsBacktracked(s, t) && InPart(t, i, p)
    ensures t.dfs[i] == s.dfs[i] && t.at[i] == s.at[i]
    ensures InPart(s, i, p) || (i == |s.at| - 2 && InPart(s, |s.at| - 1, p) && p > s.at[i])
  {
  }

  lemma BacktrackOwners(g: Graph, s: State, t: State)
    requires StackOk(s) && FramesOk(g, s) && OwnersOk(g, s) && LowOk(g, s) && Exhausted(g, s) && IsBacktracked(s, t)
    requires s.meta[s.stack[s.at[|s.at| - 1]]].lowlink < s.meta[s.stack[s.at[|s.at| - 1]]].index
    ensures OwnersOk(g, t)
  {
    hide Reach;
    ParentConnected(g, s);
    var n := |s.at| - 1;
    hide StackOk, LowOk;
    forall i, p | InPart(t, i, p) ensures Reach(g, t.stack[p], t.dfs[i].node) && Reach(g, t.dfs[i].node, t.stack[p]) {
      BacktrackPart(g, s, t, i, p);
      if !InPart(s, i, p) {
        ReachTransitive(g, s.stack[p], s.dfs[n].node, s.dfs[n - 1].node);
        ReachTransitive(g, s.dfs[n - 1].node, s.dfs[n].node, s.stack[p]);
      }
    }
  }

  lemma BacktrackEdges(g: Graph, s: State, t: State)
    requires StackOk(s) && FramesOk(g, s) && EdgesOk(g, s) && Exhausted(g, s) && IsBacktracked(s, t)
    requires StackOk(t) && FramesOk(g, t)
    ensures EdgesOk(g, t)
  {
    hide StackOk, EdgeOk;
    var n := |s.at| - 1;
    forall i, p, y | InPart(t, i, p) && y in Explored(g, t, i, p) ensures Visited(t, t.dfs[i].node) && EdgeOk(t, i, y) {
      BacktrackPart(g, s, t, i, p);
      PathVisited(g, s, i);
      PathVisited(g, s, n);
      PathVisited(g, s, n - 1);
      if i < n - 1 { PathDistinct(g, s, i, n - 1); }
      if InPart(s, i, p) {
        assert y in Explored(g, s, i, p);
        assert EdgeOk(s, i, y);
      } else {
        assert s.dfs[n].edges == [] && g(s.stack[p])[0..] == g(s.stack[p]);
        assert y in Explored(g, s, n, p);
        assert EdgeOk(s, n, y);
      }
      BacktrackEdge(g, s, t, i, y);
    }
  }

  lemma BacktrackEdge(g: Graph, s: State, t: State, i: nat, y: Node)
    requires IsBacktracked(s, t) && i < |s.at| - 1 && Visited(s, s.dfs[i].node) && Visited(s, s.dfs[|s.at| - 1].node)
    requires i == |s.at| - 2 || s.dfs[i].node != s.dfs[|s.at| - 2].node
    requires EdgeOk(s, i, y) || (i == |s.at| - 2 && EdgeOk(s, |s.at| - 1, y))
    ensures Visited(t, t.dfs[i].node) && EdgeOk(t, i, y)
  {
  }

  lemma BacktrackLow(g: Graph, s: State, t: State)
    requires StackOk(s) && FramesOk(g, s) && LowOk(g, s) && IsBacktracked(s, t)
    requires StackOk(t) && FramesOk(g, t)
    ensures LowOk(g, t)
  {
    hide Reach, StackOk;
    forall i | 0 <= i < |t.at| ensures Visited(t, t.dfs[i].node) && LowOf(g, t, i) {
      PathVisited(g, t, i);
      BacktrackLowOf(g, s, t, i);
    }
  }

  lemma BacktrackLowOf(g: Graph, s: State, t: State, i: nat)
    requires StackOk(s) && FramesOk(g, s) && LowOk(g, s) && IsBacktracked(s, t) && i < |t.at|
    requires StackOk(t) && FramesOk(g, t) && Visited(t, t.dfs[i].node)
    ensures LowOf(g, t, i)
  {
    hide Reach, StackOk, FramesOk;
    var n := |s.at| - 1;
    PathVisited(g, s, i);
    PathVisited(g, s, n);
    assert LowOf(g, s, i) && LowOf(g, s, n);
    if i < n - 1 { PathDistinct(g, s, i, n - 1); }
    if t.meta[s.dfs[i].node].lowlink == s.meta[s.dfs[i].node].lowlink {
      BacktrackSameLow(g, s, t, i);
    } else {
      BacktrackLowerLow(g, s, t);
    }
  }

  lemma BacktrackSameLow(g: Graph, s: State, t: State, i: nat)
    requires StackOk(s) && FramesOk(g, s) && IsBacktracked(s, t) && i < |t.at| && Visited(s, s.dfs[i].node) && LowOf(g, s, i)
    requires StackOk(t) && FramesOk(g, t) && Visited(t, t.dfs[i].node)
    requires t.meta[s.dfs[i].node].lowlink == s.meta[s.dfs[i].node].lowlink
    ensures LowOf(g, t, i)
  {
    hide Reach, StackOk, FramesOk;
    var q := LowWitness(g, s, i);
    assert t.dfs[i] == s.dfs[i] && t.at[i] == s.at[i];
    assert t.meta[t.stack[q]].index == t.meta[t.dfs[i].node].lowlink;
  }

  lemma BacktrackLowerLow(g: Graph, s: State, t: State)
    requires StackOk(s) && FramesOk(g, s) && IsBacktracked(s, t) && StackOk(t) && FramesOk(g, t)
    requires var i, n := |s.at| - 2, |s.at| - 1;
             && Visited(s, s.dfs[i].node) && LowOf(g, s, i) && Visited(s, s.dfs[n].node) && LowOf(g, s, n) && Visited(t, t.dfs[i].node)
             && t.meta[s.dfs[i].node].lowlink != s.meta[s.dfs[i].node].lowlink
    ensures LowOf(g, t, |s.at| - 2)
  {
    hide Reach, StackOk, FramesOk;
    var i, n := |s.at| - 2, |s.at| - 1;
    var q := LowWitness(g, s, n);
    EdgeOnPath(g, s, i);
    ReachTransitive(g, s.dfs[i].node, s.dfs[n].node, s.stack[q]);
    LowerIsBelow(g, s, i, q);
    assert t.dfs[i] == s.dfs[i] && t.at[i] == s.at[i];
    assert t.meta[t.stack[q]].index == t.meta[t.dfs[i].node].lowlink;
  }

  lemma EdgeOnPath(g: Graph, s: State, i: nat)
    requires FramesOk(g, s) && i + 1 < |s.dfs|
    ensures Reach(g, s.dfs[i].node, s.dfs[i + 1].node)
  {
    PathReach(g, s, i, i + 1);
  }

  lemma Backtrack(g: Graph, roots: set<Node>, universe: set<Node>, s: State, t: State)
    requires Inv(g, roots, universe, s) && Exhausted(g, s) && IsBacktracked(s, t)
    requires s.meta[s.dfs[|s.dfs| - 1].node].lowlink < s.meta[s.dfs[|s.dfs| - 1].node].index
    ensures Inv(g, roots, universe, t) && !Fresh(t)
  {
    hide Reach, OwnersOk, EdgesOk, LowOk, IsComponent, StackOk, FromRoots;
    PathVisited(g, s, |s.at| - 1);
    hide FramesOk;
    BacktrackStack(g, s, t);
    BacktrackFrames(g, s, t);
    BacktrackOwners(g, s, t);
    BacktrackEdges(g, s, t);
    BacktrackLow(g, s, t);
    assert DoneOk(g, t);
    assert RootsOk(g, roots, universe, t);
  }

  // ---------- starting, stopping, and getting on ----------

  ghost function Started(s: State, r: Node): State {
    s.(dfs := [Frame(r, [])])
  }

  lemma Start(g: Graph, roots: set<Node>, universe: set<Node>, s: State, r: Node)
    requires Inv(g, roots, universe, s) && s.dfs == [] && r !in s.meta && r in roots && r in universe
    ensures Inv(g, roots, universe, Started(s, r)) && Fresh(Started(s, r))
  {
    ReachSelf(g, r);
    hide Reach;
    assert forall x :: Done(Started(s, r), x) <==> Done(s, x);
    assert FromRoots(g, roots, r);
  }

  /** The last node of the path is unvisited exactly when it is fresh. */
  lemma FreshMeansUnvisited(g: Graph, s: State)
    requires StackOk(s) && FramesOk(g, s) && s.dfs != []
    ensures var v := s.dfs[|s.dfs| - 1].node;
            && (Fresh(s) <==> !Visited(s, v))
            && (v in s.meta ==> (Fresh(s) <==> s.meta[v].index == -1))
  {
    if !Fresh(s) {
      PathVisited(g, s, |s.at| - 1);
    }
  }

  /** Between two roots, everything that has been seen is in a finished component. */
  lemma SettledIsDone(g: Graph, s: State, x: Node)
    requires StackOk(s) && FramesOk(g, s) && s.dfs == [] && x in s.meta
    ensures Done(s, x)
  {
    assert Visited(s, x);
  }

  ghost function Unvisited(universe: set<Node>, s: State): set<Node> {
    set x | x in universe && !Visited(s, x)
  }

  ghost function Remaining(dfs: seq<Frame>): nat {
    if dfs == [] then 0 else Remaining(dfs[..|dfs| - 1]) + |dfs[|dfs| - 1].edges|
  }

  /** One step of the outer loop gets closer to the end. */
  ghost predicate Progress(universe: set<Node>, s: State, t: State) {
    || Unvisited(universe, t) < Unvisited(universe, s)
    || (Unvisited(universe, t) == Unvisited(universe, s) && Remaining(t.dfs) < Remaining(s.dfs))
    || (Unvisited(universe, t) == Unvisited(universe, s) && Remaining(t.dfs) == Remaining(s.dfs) && |t.dfs| < |s.dfs|)
  }

  lemma EnterProgress(g: Graph, roots: set<Node>, universe: set<Node>, s: State)
    requires StackOk(s) && FramesOk(g, s) && RootsOk(g, roots, universe, s) && Fresh(s)
    ensures Unvisited(universe, Entered(g, s)) < Unvisited(universe, s)
  {
    var v := s.dfs[|s.dfs| - 1].node;
    assert v in Unvisited(universe, s) && v !in Unvisited(universe, Entered(g, s));
    forall x | x in Unvisited(universe, Entered(g, s)) ensures x in Unvisited(universe, s) {
    }
  }

  lemma ShortenedRemaining(s: State)
    requires s.dfs != [] && s.dfs[|s.dfs| - 1].edges != []
    ensures Remaining(Shortened(s)) == Remaining(s.dfs) - 1
    ensures forall w :: Remaining(Shortened(s) + [Frame(w, [])]) == Remaining(s.dfs) - 1
  {
    assert Shortened(s)[..|s.dfs| - 1] == s.dfs[..|s.dfs| - 1];
    forall w ensures Remaining(Shortened(s) + [Frame(w, [])]) == Remaining(s.dfs) - 1 {
      assert (Shortened(s) + [Frame(w, [])])[..|s.dfs|] == Shortened(s);
    }
  }

  lemma DescendProgress(universe: set<Node>, s: State)
    requires s.dfs != [] && s.dfs[|s.dfs| - 1].edges != [] && !Visited(s, NextEdge(s))
    ensures Unvisited(universe, Descended(s)) == Unvisited(universe, s) && Remaining(Descended(s).dfs) == Remaining(s.dfs) - 1
  {
    ShortenedRemaining(s);
    assert forall x :: Visited(Descended(s), x) <==> Visited(s, x);
  }

  lemma LookProgress(universe: set<Node>, s: State)
    requires s.dfs != [] && s.dfs[|s.dfs| - 1].edges != [] && NextEdge(s) in s.meta && s.dfs[|s.dfs| - 1].node in s.meta
    ensures Unvisited(universe, Looked(s)) == Unvisited(universe, s) && Remaining(Looked(s).dfs) == Remaining(s.dfs) - 1
  {
    ShortenedRemaining(s);
    assert forall x :: Visited(Looked(s), x) <==> Visited(s, x);
  }

  lemma CompleteProgress(g: Graph, universe: set<Node>, s: State, t: State, c: seq<Node>)
    requires Exhausted(g, s) && IsCompleted(s, t, c)
    ensures Unvisited(universe, t) == Unvisited(universe, s) && Remaining(t.dfs) == Remaining(s.dfs) && |t.dfs| < |s.dfs|
  {
    assert forall x :: Visited(t, x) <==> Visited(s, x);
  }

  lemma BacktrackProgress(g: Graph, universe: set<Node>, s: State, t: State)
    requires Exhausted(g, s) && IsBacktracked(s, t)
    ensures Unvisited(universe, t) == Unvisited(universe, s) && Remaining(t.dfs) == Remaining(s.dfs) && |t.dfs| < |s.dfs|
  {
    assert forall x :: Visited(t, x) <==> Visited(s, x);
  }

  // ---------- what the algorithm reads off a state ----------

  lemma FreshLengths(g: Graph, s: State)
    requires FramesOk(g, s)
    ensures |s.at| <= |s.dfs| <= |s.at| + 1
  {
  }

  lemma EndOfPath(g: Graph, s: State)
    requires StackOk(s) && FramesOk(g, s) && !Fresh(s) && s.dfs != []
    ensures |s.at| == |s.dfs| && s.dfs[|s.dfs| - 1].node in s.meta
    ensures forall x :: x in s.meta ==> Visited(s, x)
  {
    PathVisited(g, s, |s.at| - 1);
  }

  lemma LeaveFacts(g: Graph, s: State)
    requires StackOk(s) && FramesOk(g, s) && LowOk(g, s) && Exhausted(g, s)
    ensures var n := |s.at| - 1;
            && |s.at| == |s.dfs| && s.at[n] < |s.stack| && s.stack[s.at[n]] == s.dfs[n].node && s.dfs[n].node in s.meta
            && s.meta[s.dfs[n].node].lowlink <= s.meta[s.dfs[n].node].index
    ensures forall p :: 0 <= p < |s.stack| ==> s.stack[p] in s.meta
    ensures forall p, q :: 0 <= p < q < |s.stack| ==> s.stack[p] != s.stack[q]
  {
    PathVisited(g, s, |s.at| - 1);
    assert LowOf(g, s, |s.at| - 1);
  }

  /** The parent of a finished component has a lower lowlink already. */
  lemma CompleteParent(g: Graph, s: State, t: State, c: seq<Node>)
    requires StackOk(s) && FramesOk(g, s) && LowOk(g, s) && Exhausted(g, s) && IsCompleted(s, t, c)
    requires t.dfs != [] && s.dfs[|s.dfs| - 1].node in s.meta
    requires s.meta[s.dfs[|s.dfs| - 1].node].lowlink == s.meta[s.dfs[|s.dfs| - 1].node].index
    ensures t.dfs[|t.dfs| - 1].node in t.meta
    ensures t.meta[t.dfs[|t.dfs| - 1].node].lowlink <= s.meta[s.dfs[|s.dfs| - 1].node].lowlink
  {
    hide Reach, Lists, StackOk;
    var n := |s.at| - 1;
    PathVisited(g, s, n);
    PathVisited(g, s, n - 1);
    PathDistinct(g, s, n - 1, n);
    assert LowOf(g, s, n - 1);
  }

  lemma LeaveParent(g: Graph, s: State)
    requires StackOk(s) && FramesOk(g, s) && OwnersOk(g, s) && LowOk(g, s) && Exhausted(g, s)
    requires s.dfs[|s.dfs| - 1].node in s.meta
    requires s.meta[s.dfs[|s.dfs| - 1].node].lowlink < s.meta[s.dfs[|s.dfs| - 1].node].index
    ensures |s.at| == |s.dfs| >= 2 && s.dfs[|s.dfs| - 2].node in s.meta
  {
    hide Reach;
    PathVisited(g, s, |s.at| - 1);
    ParentConnected(g, s);
    PathVisited(g, s, |s.at| - 2);
  }

  // ---------- the result ----------

  /** The components partition what the roots reach, and edges only lead forward. */
  ghost predicate IsCondensation(g: Graph, roots: set<Node>, r: seq<seq<Node>>) {
    && (forall a :: 0 <= a < |r| ==> IsComponent(g, r[a]))
    && (forall x :: FromRoots(g, roots, x) <==> exists a :: 0 <= a < |r| && x in r[a])
    && (forall a, b, x :: 0 <= a < b < |r| && x in r[a] ==> x !in r[b])
    && forall a, b, x, y :: 0 <= a < |r| && 0 <= b < |r| && x in r[a] && y in r[b] && y in g(x) ==> a <= b
  }

  ghost function Reversed(s: seq<seq<Node>>): seq<seq<Node>> {
    seq(|s|, i requires 0 <= i < |s| => s[|s| - 1 - i])
  }

  lemma ReversedIsCondensation(g: Graph, roots: set<Node>, universe: set<Node>, s: State)
    requires Inv(g, roots, universe, s) && s.dfs == [] && forall r :: r in roots ==> r in s.meta
    ensures IsCondensation(g, roots, Reversed(s.sccs))
  {
    hide Reach, OwnersOk, EdgesOk, LowOk, IsComponent, FromRoots;
    var r := Reversed(s.sccs);
    forall x ensures FromRoots(g, roots, x) <==> exists a :: 0 <= a < |r| && x in r[a] {
      ReachedIsDone(g, roots, universe, s, x);
      if Done(s, x) {
        var a :| 0 <= a < |s.sccs| && x in s.sccs[a];
        assert r[|r| - 1 - a] == s.sccs[a];
      }
    }
    hide StackOk, FramesOk, RootsOk;
    forall a, b, x, y | 0 <= a < |r| && 0 <= b < |r| && x in r[a] && y in r[b] && y in g(x) ensures a <= b {
      var m := |r| - 1;
      assert x in s.sccs[m - a] && y in s.sccs[m - b];
      assert InFirst(s.sccs, m - a + 1, y);
    }
    forall a, b, x | 0 <= a < b < |r| && x in r[a] ensures x !in r[b] {
      assert r[a] == s.sccs[|r| - 1 - a] && r[b] == s.sccs[|r| - 1 - b];
    }
  }

  lemma ReachedIsDone(g: Graph, roots: set<Node>, universe: set<Node>, s: State, x: Node)
    requires Inv(g, roots, universe, s) && s.dfs == [] && forall r :: r in roots ==> r in s.meta
    ensures FromRoots(g, roots, x) <==> Done(s, x)
  {
    hide Reach, OwnersOk, EdgesOk, LowOk, IsComponent, FramesOk;
    if Done(s, x) {
      assert Visited(s, x);
    }
    if FromRoots(g, roots, x) {
      var r :| r in roots && Reach(g, r, x);
      var finished := set y | y in s.meta && Done(s, y);
      SettledIsDone(g, s, r);
      forall u, w | u in finished && w in g(u) ensures w in finished {
        DoneIsClosed(g, s, u, w);
        assert Visited(s, w);
      }
      hide Done, StackOk, DoneOk;
      ReachStaysIn(g, finished, r, x);
    }
  }
}
