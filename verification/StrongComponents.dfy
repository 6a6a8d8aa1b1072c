/** Strongly connected components by Tarjan's algorithm, with an explicit stack in place of recursion. */
module StrongComponents {
  import opened Reachability
  import opened TarjanState

  class ComponentFinder {
    const successors: Graph
    ghost const roots: set<Node>
    ghost const universe: set<Node>
    var nodeMeta: map<Node, Meta>
    var stack: seq<Node>
    var dfsStack: seq<Frame>
    var index: nat
    var sccs: seq<seq<Node>>
    ghost var at: seq<nat>

    constructor (successors: Graph, ghost roots: set<Node>, ghost universe: set<Node>)
      requires roots <= universe && Closed(successors, universe)
      ensures this.successors == successors && this.roots == roots && this.universe == universe
      ensures Valid() && dfsStack == [] && nodeMeta == map[]
    {
      this.successors, this.roots, this.universe := successors, roots, universe;
      nodeMeta, stack, dfsStack, index, sccs, at := map[], [], [], 0, [], [];
    }

    ghost function Snapshot(): State
      reads this
    {
      State(nodeMeta, stack, dfsStack, index, sccs, at)
    }

    ghost predicate Valid()
      reads this
    {
      Inv(successors, roots, universe, Snapshot()) && Closed(successors, universe) && roots <= universe
    }

    /** Gives a node its index when it is first seen, and collects its successors. */
    method EnterIfNew()
      requires Valid() && dfsStack != []
      modifies this
      ensures Valid() && !Fresh(Snapshot()) && |dfsStack| == |old(dfsStack)| == |at|
      ensures Snapshot() == if old(Fresh(Snapshot())) then old(Entered(successors, Snapshot())) else old(Snapshot())
    {
      hide StackOk, FramesOk, OwnersOk, EdgesOk, LowOk, DoneOk, RootsOk, Closed;
      ghost var s := Snapshot();
      FreshMeansUnvisited(successors, s);
      FreshLengths(successors, s);
      var v := dfsStack[|dfsStack| - 1].node;
      if v !in nodeMeta || nodeMeta[v].index == -1 {
        Enter(successors, roots, universe, s);
        nodeMeta := nodeMeta[v := Meta(index, index, true)];
        index := index + 1;
        at := at + [|stack|];
        stack := stack + [v];
        dfsStack := dfsStack[|dfsStack| - 1 := Frame(v, successors(v))];
      }
    }

    /** Looks at successors from the back, until one is new, which is then put on the path. */
    method LookAtSuccessors() returns (recursing: bool)
      requires Valid() && dfsStack != [] && !Fresh(Snapshot())
      modifies this
      ensures Valid() && dfsStack != [] && old(nodeMeta).Keys <= nodeMeta.Keys
      ensures Unvisited(universe, Snapshot()) == old(Unvisited(universe, Snapshot()))
      ensures if recursing then Remaining(dfsStack) < old(Remaining(dfsStack))
              else Remaining(dfsStack) <= old(Remaining(dfsStack)) && |dfsStack| == old(|dfsStack|) && Exhausted(successors, Snapshot())
    {
      hide StackOk, OwnersOk, EdgesOk, LowOk, DoneOk, RootsOk, Closed, Unvisited, Remaining, FramesOk;
      while dfsStack[|dfsStack| - 1].edges != []
        invariant Valid() && dfsStack != [] && !Fresh(Snapshot()) && |dfsStack| == old(|dfsStack|)
        invariant old(nodeMeta).Keys <= nodeMeta.Keys
        invariant Unvisited(universe, Snapshot()) == old(Unvisited(universe, Snapshot()))
        invariant Remaining(dfsStack) <= old(Remaining(dfsStack))
        decreases Remaining(dfsStack)
      {
        recursing := LookAtOne();
        if recursing {
          return;
        }
      }
      recursing := false;
    }

    method LookAtOne() returns (recursing: bool)
      requires Valid() && dfsStack != [] && !Fresh(Snapshot()) && dfsStack[|dfsStack| - 1].edges != []
      modifies this
      ensures Valid() && dfsStack != [] && old(nodeMeta).Keys <= nodeMeta.Keys
      ensures Unvisited(universe, Snapshot()) == old(Unvisited(universe, Snapshot()))
      ensures Remaining(dfsStack) < old(Remaining(dfsStack))
      ensures LookedOnce(old(Snapshot()), Snapshot(), recursing)
      ensures !recursing ==> !Fresh(Snapshot()) && |dfsStack| == old(|dfsStack|)
    {
      hide StackOk, OwnersOk, EdgesOk, LowOk, DoneOk, RootsOk, Unvisited, Remaining, FramesOk;
      ghost var s := Snapshot();
      EndOfPath(successors, s);
      var top := dfsStack[|dfsStack| - 1];
      var v, w := top.node, top.edges[|top.edges| - 1];
      dfsStack := dfsStack[|dfsStack| - 1 := top.(edges := top.edges[..|top.edges| - 1])];
      if w !in nodeMeta {
        nodeMeta := nodeMeta[w := Meta(-1, -1, false)];
      }
      if nodeMeta[w].index == -1 {
        dfsStack := dfsStack + [Frame(w, [])];
        recursing := true;
        assert Snapshot() == Descended(s);
        DescendProgress(universe, s);
        Descend(successors, roots, universe, s);
      } else {
        recursing := false;
        LookLowers(successors, s);
        if nodeMeta[w].onStack {
          nodeMeta := nodeMeta[v := nodeMeta[v].(lowlink := Min2(nodeMeta[v].lowlink, nodeMeta[w].index))];
        }
        assert Snapshot() == Looked(s);
        LookProgress(universe, s);
        Look(successors, roots, universe, s);
      }
    }

    /** Takes the stack down to v off as a component. */
    method PopComponent(v: Node, ghost lo: nat) returns (scc: seq<Node>)
      requires lo < |stack| && stack[lo] == v
      requires forall p :: 0 <= p < |stack| ==> stack[p] in nodeMeta
      requires forall p, q :: 0 <= p < q < |stack| ==> stack[p] != stack[q]
      modifies `nodeMeta, `stack
      ensures stack == old(stack)[..lo] && Lists(scc, old(stack)[lo..])
      ensures nodeMeta.Keys == old(nodeMeta).Keys
      ensures forall x :: x in nodeMeta ==> nodeMeta[x] == if x in scc then old(nodeMeta)[x].(onStack := false) else old(nodeMeta)[x]
    {
      ghost var s, m := stack, nodeMeta;
      scc := [];
      while true
        invariant lo < |stack| <= |s| && stack == s[..|stack|]
        invariant Lists(scc, s[|stack|..])
        invariant nodeMeta.Keys == m.Keys
        invariant forall x :: x in nodeMeta ==> nodeMeta[x] == if x in scc then m[x].(onStack := false) else m[x]
        decreases |stack|
      {
        var node := stack[|stack| - 1];
        assert s[|stack| - 1..] == [node] + s[|stack|..];
        assert node !in scc;
        stack := stack[..|stack| - 1];
        nodeMeta := nodeMeta[node := nodeMeta[node].(onStack := false)];
        scc := scc + [node];
        if node == v {
          break;
        }
      }
    }

    /** Leaves a node whose successors have all been looked at. */
    method Leave()
      requires Valid() && dfsStack != [] && Exhausted(successors, Snapshot())
      modifies this
      ensures Valid() && |dfsStack| == |old(dfsStack)| - 1 && old(nodeMeta).Keys <= nodeMeta.Keys
      ensures Unvisited(universe, Snapshot()) == old(Unvisited(universe, Snapshot()))
      ensures Remaining(dfsStack) == old(Remaining(dfsStack))
    {
      hide StackOk, FramesOk, OwnersOk, EdgesOk, LowOk, DoneOk, RootsOk, Unvisited, Remaining, Closed, Reach, Lists;
      ghost var s := Snapshot();
      LeaveFacts(successors, s);
      ghost var lo := at[|at| - 1];
      var v := dfsStack[|dfsStack| - 1].node;
      var vMeta := nodeMeta[v];
      ghost var c: seq<Node> := [];
      if vMeta.lowlink == vMeta.index {
        var scc := PopComponent(v, lo);
        sccs := sccs + [scc];
        c := scc;
      }
      dfsStack := dfsStack[..|dfsStack| - 1];
      at := at[..|at| - 1];
      ghost var t := Snapshot();
      if vMeta.lowlink == vMeta.index {
        assert IsCompleted(s, t, c);
        Complete(successors, roots, universe, s, t, c);
        CompleteProgress(successors, universe, s, t, c);
        if dfsStack != [] {
          CompleteParent(successors, s, t, c);
        }
      } else {
        LeaveParent(successors, s);
      }
      if dfsStack != [] {
        var parent := dfsStack[|dfsStack| - 1].node;
        nodeMeta := nodeMeta[parent := nodeMeta[parent].(lowlink := Min2(nodeMeta[parent].lowlink, vMeta.lowlink))];
      }
      if vMeta.lowlink == vMeta.index {
        assert Snapshot() == t;
      } else {
        assert IsBacktracked(s, Snapshot());
        Backtrack(successors, roots, universe, s, Snapshot());
        BacktrackProgress(successors, universe, s, Snapshot());
      }
    }

    /** Visits everything that a new node reaches. */
    method StrongConnect(start: Node)
      requires Valid() && dfsStack == [] && start in roots && start !in nodeMeta
      modifies this
      ensures Valid() && dfsStack == []
      ensures start in nodeMeta && old(nodeMeta).Keys <= nodeMeta.Keys
    {
      hide StackOk, FramesOk, OwnersOk, EdgesOk, LowOk, DoneOk, RootsOk, Closed, Unvisited, Remaining;
      Start(successors, roots, universe, Snapshot(), start);
      dfsStack := [Frame(start, [])];
      while dfsStack != []
        invariant Valid() && old(nodeMeta).Keys <= nodeMeta.Keys
        invariant start in nodeMeta || (|dfsStack| == 1 && dfsStack[0].node == start && Fresh(Snapshot()))
        decreases Unvisited(universe, Snapshot()), Remaining(dfsStack), |dfsStack|
      {
        ghost var s := Snapshot();
        if Fresh(s) {
          EnterProgress(successors, roots, universe, s);
        }
        EnterIfNew();
        var recursing := LookAtSuccessors();
        if recursing {
          continue;
        }
        Leave();
      }
    }
  }
  /** Every node that a root leads to ends up in one component, and the components come in topological order. */
  method StronglyConnectedComponents(g: Graph, starts: seq<Node>, ghost universe: set<Node>) returns (r: seq<seq<Node>>)
    requires Closed(g, universe) && forall n :: n in starts ==> n in universe
    ensures IsCondensation(g, (set n | n in starts), r)
  {
    hide Inv, Closed;
    ghost var roots := set n | n in starts;
    var f := new ComponentFinder(g, roots, universe);
    for i := 0 to |starts|
      invariant f.Valid() && f.dfsStack == []
      invariant f.successors == g && f.roots == roots && f.universe == universe
      invariant forall k :: 0 <= k < i ==> starts[k] in f.nodeMeta
    {
      if starts[i] !in f.nodeMeta {
        f.StrongConnect(starts[i]);
      }
    }
    ReversedIsCondensation(g, roots, universe, f.Snapshot());
    var found := f.sccs;
    r := seq(|found|, i requires 0 <= i < |found| => found[|found| - 1 - i]);
    assert r == Reversed(found);
  }
}
