/** Traversing the dependency graph while waiting for the requirements of conjunctive edges. */
module GraphTraversal {
  import opened Wrappers
  import opened Reachability
  import opened TraversalState

  class TraversalContext {
    const config: Config
    ghost const universe: set<Node>
    var visited: set<Node>
    var next: seq<Node>
    var pendingEdges: seq<PendingEdge>
    var reached: Reached

    ghost function Snapshot(): State
      reads this
    {
      State(visited, next, pendingEdges, reached)
    }

    /** The nodes in `busy` are being handled. */
    ghost predicate Valid(busy: set<Node>)
      reads this
    {
      Inv(config, universe, busy, Snapshot()) && Closed(config, universe)
    }

    constructor (config: Config, ghost universe: set<Node>, startNodes: seq<Node>)
      requires config.start == set n | n in startNodes
      requires Closed(config, universe) && config.start <= universe
      ensures this.config == config && this.universe == universe && Valid({})
    {
      this.config, this.universe := config, universe;
      visited, next, pendingEdges, reached := {}, [], [], config.preloaded;
      new;
      for i := 0 to |startNodes|
        invariant visited == (set n | n in startNodes[..i]) && (forall n :: n in visited <==> n in next)
        invariant pendingEdges == [] && (config.enforceContext ==> ReachedOk(config, Snapshot()))
        invariant this.config == config && this.universe == universe
      {
        ghost var s := Snapshot();
        if config.enforceContext {
          ReachReached(config, s, startNodes[i]);
        }
        Reach(startNodes[i]);
        assert startNodes[..i + 1] == startNodes[..i] + [startNodes[i]];
      }
      assert startNodes[..|startNodes|] == startNodes;
    }

    /** Marks a node as visited and, under context, as available to requirements. */
    method Reach(node: Node)
      modifies this
      ensures Snapshot() == old(AfterReach(config, Snapshot(), node))
    {
      if node !in visited {
        visited := visited + {node};
        next := next + [node];
      } else {
        assert visited + {node} == visited;
      }
      if config.enforceContext {
        reached := WithNode(reached, node);
      }
    }

    method GetNext() returns (node: Node)
      requires Valid({}) && next != []
      modifies `next
      ensures node in visited && next == old(next)[..|old(next)| - 1] && Valid({node})
    {
      hide Inv, Closed;
      ghost var s := Snapshot();
      node := next[|next| - 1];
      next := next[..|next| - 1];
      PopNext(config, universe, s, Snapshot());
    }

    /** Follows an edge whose requirements, if it has any, can be left aside. */
    method TraverseEdgeTo(to: Node, table: Option<nat>, ghost n: Node)
      requires Valid({n}) && n in visited && IsEdge(config, n, Direct(to, table))
      modifies this
      ensures Valid({n}) && Handled(config, Snapshot(), Direct(to, table))
      ensures Advanced(old(Snapshot()), Snapshot()) && KeepsHandled(config, old(Snapshot()), Snapshot())
    {
      hide ReachedOk, Expanded, PendingOk, Sound, Closed;
      if !config.filters.ShouldFollow(to, table, None) {
        return;
      }
      ghost var s := Snapshot();
      Reach(to);
      Follow(config, universe, {n}, s, n, Direct(to, table), Snapshot());
    }

    /** Follows a conjunctive edge if it is satisfied, or lets it wait. */
    method TraversePendingEdgeTo(edge: PendingEdge, ghost n: Node)
      requires Valid({n}) && n in visited && IsEdge(config, n, Conjunctive(edge)) && Possible(edge, config.fullClosure)
      modifies this
      ensures Valid({n}) && Handled(config, Snapshot(), Conjunctive(edge))
      ensures Advanced(old(Snapshot()), Snapshot()) && KeepsHandled(config, old(Snapshot()), Snapshot())
    {
      hide ReachedOk, Expanded, PendingOk, Sound, Closed, ConstraintsSatisfied;
      if !config.filters.ShouldFollow(edge.dest, Some(edge.tableTag), edge.requiredFeature) {
        return;
      }
      ghost var s := Snapshot();
      if config.enforceContext && !ConstraintsSatisfied(edge, reached) {
        Wait(config, universe, {n}, s, n, edge);
        pendingEdges := pendingEdges + [edge];
      } else {
        Reach(edge.dest);
        Follow(config, universe, {n}, s, n, Conjunctive(edge), Snapshot());
      }
    }

    /** A conjunctive edge, unless it is clear that it will never be satisfied. */
    method TraverseConjunctive(edge: PendingEdge, ghost n: Node)
      requires Valid({n}) && n in visited && IsEdge(config, n, Conjunctive(edge))
      modifies this
      ensures Valid({n}) && Handled(config, Snapshot(), Conjunctive(edge))
      ensures Advanced(old(Snapshot()), Snapshot()) && KeepsHandled(config, old(Snapshot()), Snapshot())
    {
      hide ReachedOk, Expanded, PendingOk, Sound, Closed, ConstraintsSatisfied, CannotReach;
      if config.enforceContext && Hopeless(config, reached, edge) {
        return;
      }
      if !Possible(edge, config.fullClosure) {
        return;
      }
      TraversePendingEdgeTo(edge, n);
    }

    method HandleOutgoingEdges(node: Node)
      requires Valid({node}) && node in visited
      modifies this
      ensures Valid({}) && Advanced(old(Snapshot()), Snapshot())
    {
      hide ReachedOk, PendingOk, Sound, Closed, Handled;
      var edges := config.outgoing(node);
      for i := 0 to |edges|
        invariant Valid({node}) && node in visited && Advanced(old(Snapshot()), Snapshot())
        invariant forall k :: 0 <= k < i ==> Handled(config, Snapshot(), edges[k])
      {
        ghost var s := Snapshot();
        assert IsEdge(config, node, edges[i]);
        match edges[i]
        case Direct(to, table) => TraverseEdgeTo(to, table, node);
        case Conjunctive(edge) => TraverseConjunctive(edge, node);
        assert forall k :: 0 <= k < i ==> Handled(config, s, edges[k]);
      }
      forall e | IsEdge(config, node, e) ensures Handled(config, Snapshot(), e) {
        var k :| 0 <= k < |edges| && edges[k] == e;
      }
      DoneWith(config, universe, node, Snapshot());
    }

    /** Follows the waiting edges that are satisfied now; those that stay cannot be, unless new nodes came up. */
    method CheckPending() returns (didWork: bool)
      requires Valid({}) && next == []
      modifies this
      ensures Valid({}) && Advanced(old(Snapshot()), Snapshot())
      ensures next == [] <==> visited == old(visited)
      ensures next == [] ==> forall e :: e in pendingEdges ==> !ConstraintsSatisfied(e, reached)
      ensures !didWork ==> Snapshot() == old(Snapshot())
    {
      hide ReachedOk, PendingOk, Sound, Closed, Expanded, ConstraintsSatisfied, IsEdge, Follows;
      didWork := false;
      var i := 0;
      while i < |pendingEdges|
        invariant 0 <= i <= |pendingEdges|
        invariant Valid({}) && Advanced(old(Snapshot()), Snapshot())
        invariant next == [] <==> visited == old(visited)
        invariant visited == old(visited) ==> reached == old(reached)
        invariant visited == old(visited) ==> forall k :: 0 <= k < i ==> !ConstraintsSatisfied(pendingEdges[k], reached)
        invariant !didWork ==> Snapshot() == old(Snapshot())
        decreases |pendingEdges| - i
      {
        var pending := pendingEdges[i];
        if ConstraintsSatisfied(pending, reached) {
          ghost var s := Snapshot();
          ghost var n := WaitingIsFound(config, s, pending);
          if pending.dest in visited {
            ReachKnown(config, s, pending.dest);
          }
          Reach(pending.dest);
          WithoutIndex(pendingEdges, i);
          pendingEdges := pendingEdges[..i] + pendingEdges[i + 1..];
          didWork := true;
          Follow(config, universe, {}, s, n, Conjunctive(pending), Snapshot());
        } else {
          i := i + 1;
        }
      }
    }

    /** Visits the least set that holds the start nodes and that the enabled edges do not leave. */
    method TraverseGraph() returns (stillPending: seq<PendingEdge>)
      requires Valid({})
      modifies this
      ensures IsLeastClosed(config, visited)
      ensures forall e :: e in stillPending ==>
                config.enforceContext && Found(config, Snapshot(), e) && e.dest !in visited && !ConstraintsSatisfied(e, ReachedIn(config, visited))
      ensures forall n, e :: n in visited && IsEdge(config, n, Conjunctive(e)) && Follows(config, Conjunctive(e)) && e.dest !in visited ==>
                config.enforceContext && (e in stillPending || Hopeless(config, ReachedIn(config, visited), e))
    {
      hide ReachedOk, PendingOk, Sound, Closed, Expanded, ConstraintsSatisfied, IsEdge, Follows, IsLeastClosed, Hopeless, ReachedIn, Found;
      while true
        invariant Valid({})
        decreases universe - visited, |next|
      {
        if next == [] {
          var didWork := CheckPending();
          if didWork && next != [] {
            continue;
          } else {
            break;
          }
        }
        var node := GetNext();
        HandleOutgoingEdges(node);
      }
      Finished(config, universe, Snapshot());
      stillPending := [];
      for i := 0 to |pendingEdges|
        invariant forall e :: e in stillPending <==> e in pendingEdges[..i] && e.dest !in visited
      {
        assert pendingEdges[..i + 1] == pendingEdges[..i] + [pendingEdges[i]];
        if pendingEdges[i].dest !in visited {
          stillPending := stillPending + [pendingEdges[i]];
        }
      }
      assert pendingEdges[..|pendingEdges|] == pendingEdges;
      WaitingEdges(config, universe, Snapshot(), stillPending);
    }
  }
}
