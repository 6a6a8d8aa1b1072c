/** One phase of the dependency closure: requirements are collected, components found, and conditions propagated along them. */
module ClosurePhase {
  import opened IntSets
  import opened Reachability
  import opened NodeConditions
  import opened ActivationConditions
  import opened SymbolicTraversal
  import opened TraversalState
  import ConditionPropagation
  import TarjanState
  import StrongComponents

  /** What the steps of a phase look at. Each has filters of its own: requirements are collected within the full closure,
      components are looked for among the nodes that are kept, and a traversal leaves the initial font alone. */
  datatype Phase = Phase(collect: Config, components: Config, traversal: Config,
                         sources: set<Node>, begin: set<Node>, kept: set<Node>, initial: set<Node>)

  /** The components are those of the edges to nodes that are kept. */
  ghost predicate ComponentsOk(p: Phase) {
    && p.components.outgoing == p.collect.outgoing
    && forall m, e :: IsEdge(p.collect, m, e) ==> (Follows(p.components, e) <==> Follows(p.collect, e) && e.Dest() in p.kept)
  }

  /** A traversal may take the same edges, but for those into the initial font. */
  ghost predicate TraversalOk(p: Phase) {
    && p.traversal.outgoing == p.collect.outgoing
    && forall m, e :: IsEdge(p.collect, m, e) ==>
         (Follows(p.traversal, e) ==> Follows(p.collect, e)) && (Follows(p.collect, e) && e.Dest() !in p.initial ==> Follows(p.traversal, e))
  }

  /** The initial font is always there. */
  ghost predicate StartOk(p: Phase, start: Conditions) {
    AllValid(start) && forall n :: n in p.initial ==> n in start && start[n].IsAlwaysTrue()
  }

  /** All that the nodes with a condition lead to, context or not, is kept or belongs to the initial font. */
  ghost predicate ReachedIsKept(p: Phase, start: Conditions) {
    forall n :: TarjanState.FromRoots(Successors(p.collect), start.Keys, n) ==> n in p.kept + p.initial
  }

  /** What is known from the start, and whether context counts, has nothing to do with which edges may be followed. */
  lemma SameEdges(c: Config, t: Config)
    requires t == c.(enforceContext := t.enforceContext, preloaded := t.preloaded, start := t.start)
    ensures forall m, e :: (IsEdge(t, m, e) <==> IsEdge(c, m, e)) && (Follows(t, e) <==> Follows(c, e))
  {
    hide Possible;
    assert t.outgoing == c.outgoing && t.filters == c.filters && t.fullClosure == c.fullClosure;
    forall m, e ensures (IsEdge(t, m, e) <==> IsEdge(c, m, e)) && (Follows(t, e) <==> Follows(c, e)) {
      match e
      case Direct(_, _) =>
      case Conjunctive(edge) => assert Possible(edge, t.fullClosure) <==> Possible(edge, c.fullClosure);
    }
  }

  /** This is so when a traversal without context visits nothing else. */
  lemma VisitedIsKept(p: Phase, start: Conditions, visited: set<Node>)
    requires IsLeastClosed(p.collect.(enforceContext := false, start := start.Keys), visited) && visited <= p.kept + p.initial
    ensures ReachedIsKept(p, start)
  {
    hide IsLeastClosed;
    forall n | TarjanState.FromRoots(Successors(p.collect), start.Keys, n) ensures n in p.kept + p.initial {
      ReachedIsVisited(p.collect, start.Keys, visited, n);
    }
  }

  /** Without context, a traversal visits all that its start leads to. */
  lemma ReachedIsVisited(c: Config, start: set<Node>, visited: set<Node>, n: Node)
    requires IsLeastClosed(c.(enforceContext := false, start := start), visited) && TarjanState.FromRoots(Successors(c), start, n)
    ensures n in visited
  {
    hide Follows, Successors, Reach, ReachedIn;
    var t := c.(enforceContext := false, start := start);
    SameEdges(c, t);
    forall x, y | x in visited && y in Successors(c)(x) ensures y in visited {
      SuccessorOf(c, x, y);
      var e :| IsEdge(c, x, e) && Follows(c, e) && e.Dest() == y;
      assert IsEdge(t, x, e) && Follows(t, e) && Enabled(t, e, ReachedIn(t, visited));
    }
    var r :| r in start && Reach(Successors(c), r, n);
    ReachStaysIn(Successors(c), visited, r, n);
  }

  /** The search for components starts at nodes that are kept, and at all that nodes with a condition lead to. */
  ghost predicate StartsCover(p: Phase, starts: set<Node>, start: Conditions) {
    && starts <= p.kept
    && forall m, n :: m in start && Leads(p.components, m, n) ==> m in starts || n in starts
  }

  /** The components come in an order that propagation can follow, if requirements are sources of edges. */
  lemma ComponentsAreOrdered(g: Graph, roots: set<Node>, sccs: seq<seq<Node>>, incoming: Edges)
    requires TarjanState.IsCondensation(g, roots, sccs)
    requires forall n, m :: n in Members(sccs) && m in Members(sccs) && Requires(incoming, n, m) ==> n in g(m)
    ensures Ordered(incoming, sccs)
    ensures forall n :: n in Members(sccs) <==> TarjanState.FromRoots(g, roots, n)
  {
    hide TarjanState.FromRoots, TarjanState.IsComponent, Requires;
    forall i, j, n, m | 0 <= i < |sccs| && 0 <= j < |sccs| && n in sccs[i] && m in sccs[j] && Requires(incoming, n, m)
      ensures j <= i
    {
      assert n in Members(sccs) && m in Members(sccs);
    }
  }

  /** All members of the components are kept. */
  lemma MembersAreKept(p: Phase, starts: set<Node>, n: Node)
    requires ComponentsOk(p) && starts <= p.kept && TarjanState.FromRoots(Successors(p.components), starts, n)
    ensures n in p.kept
  {
    hide Follows, Successors, Reach;
    forall x, y | x in p.kept && y in Successors(p.components)(x) ensures y in p.kept {
      SuccessorOf(p.components, x, y);
      var e :| IsEdge(p.components, x, e) && Follows(p.components, e) && e.Dest() == y;
      assert IsEdge(p.collect, x, e);
    }
    var r :| r in starts && Reach(Successors(p.components), r, n);
    ReachStaysIn(Successors(p.components), p.kept, r, n);
  }

  /** A required node leads to the node that requires it, in the graph of the components, too. */
  lemma RequiredIsSuccessor(p: Phase, incoming: Edges, n: Node, m: Node)
    requires ComponentsOk(p) && Collected(p.collect, p.sources, incoming) && NeedsLead(p.collect, p.sources)
    requires Requires(incoming, n, m) && n in p.kept
    ensures n in Successors(p.components)(m)
  {
    hide Follows, Successors, Collected, NeedsLead, Requires;
    RequiredLeadsThere(p.collect, p.sources, incoming, n, m);
    var e :| IsEdge(p.collect, m, e) && Follows(p.collect, e) && e.Dest() == n;
    assert Leads(p.components, m, n);
    SuccessorOf(p.components, m, n);
  }

  /** What the starts lead to is closed under the edges. */
  lemma ReachedIsClosed(g: Graph, starts: set<Node>, m: Node, n: Node)
    requires TarjanState.FromRoots(g, starts, m) && n in g(m)
    ensures TarjanState.FromRoots(g, starts, n)
  {
    hide Reach;
    var r :| r in starts && Reach(g, r, m);
    ReachEdge(g, m, n);
    ReachTransitive(g, r, m, n);
  }

  lemma StartIsReached(g: Graph, starts: set<Node>, n: Node)
    requires n in starts
    ensures TarjanState.FromRoots(g, starts, n)
  {
    ReachSelf(g, n);
  }

  /** Where an edge fires there is a component, or else the initial font. */
  lemma FiresWithin(p: Phase, incoming: Edges, starts: set<Node>, nodes: set<Node>, start: Conditions, x: set<Node>, n: Node)
    requires ComponentsOk(p) && Collected(p.collect, p.sources, incoming) && NeedsLead(p.collect, p.sources)
    requires StartsCover(p, starts, start) && ReachedIsKept(p, start)
    requires forall m :: m in nodes <==> TarjanState.FromRoots(Successors(p.components), starts, m)
    requires Fires(incoming, n, x) && x <= nodes + start.Keys
    requires forall m :: m in x ==> TarjanState.FromRoots(Successors(p.collect), start.Keys, m)
    ensures n in nodes + p.initial
  {
    hide Collected, NeedsLead, Successors, Follows, TarjanState.FromRoots, Leads;
    var k :| 0 <= k < |incoming[n]| && CnfMet(incoming[n][k], x);
    CollectedIsWellFormed(p.collect, p.sources, incoming);
    assert incoming[n][k] != [];
    assert GroupMet(incoming[n][k][0], x);
    var m :| m in incoming[n][k][0] && m in x;
    assert Requires(incoming, n, m);
    RequiredLeadsThere(p.collect, p.sources, incoming, n, m);
    SuccessorOf(p.collect, m, n);
    ReachedIsClosed(Successors(p.collect), start.Keys, m, n);
    if n !in p.initial {
      RequiredIsSuccessor(p, incoming, n, m);
      SuccessorOf(p.components, m, n);
      if m in nodes || m in starts {
        if m in starts {
          StartIsReached(Successors(p.components), starts, m);
        }
        ReachedIsClosed(Successors(p.components), starts, m, n);
      } else {
        StartIsReached(Successors(p.components), starts, n);
      }
    }
  }

  /** Nodes get a condition only where the nodes that had one at the start lead to. */
  lemma ConditionsAreReached(p: Phase, incoming: Edges, nodes: set<Node>, start: Conditions, s: set<Node>, x: set<Node>, n: Node)
    requires Collected(p.collect, p.sources, incoming) && NeedsLead(p.collect, p.sources) && ReachedIsKept(p, start)
    requires IsLeast(incoming, nodes, s, x) && s <= start.Keys && n in x
    ensures TarjanState.FromRoots(Successors(p.collect), start.Keys, n)
  {
    hide Collected, NeedsLead, Successors, Follows, TarjanState.FromRoots, Leads, Fires;
    var g := Successors(p.collect);
    var live := set m | m in p.kept + p.initial && TarjanState.FromRoots(g, start.Keys, m);
    forall m | m in s ensures m in live {
      StartIsReached(g, start.Keys, m);
    }
    forall m | Fires(incoming, m, live) ensures m in live {
      FiredIsReached(p, incoming, start, live, m);
    }
    assert ClosedFor(incoming, nodes, live);
  }

  lemma FiredIsReached(p: Phase, incoming: Edges, start: Conditions, live: set<Node>, n: Node)
    requires Collected(p.collect, p.sources, incoming) && NeedsLead(p.collect, p.sources)
    requires forall m :: m in live ==> TarjanState.FromRoots(Successors(p.collect), start.Keys, m)
    requires Fires(incoming, n, live)
    ensures TarjanState.FromRoots(Successors(p.collect), start.Keys, n)
  {
    hide Collected, NeedsLead, Successors, Follows, TarjanState.FromRoots, Leads;
    var k :| 0 <= k < |incoming[n]| && CnfMet(incoming[n][k], live);
    CollectedIsWellFormed(p.collect, p.sources, incoming);
    assert incoming[n][k] != [];
    assert GroupMet(incoming[n][k][0], live);
    var m :| m in incoming[n][k][0] && m in live;
    assert Requires(incoming, n, m);
    RequiredLeadsThere(p.collect, p.sources, incoming, n, m);
    SuccessorOf(p.collect, m, n);
    ReachedIsClosed(Successors(p.collect), start.Keys, m, n);
  }

  /** A traversal that starts from everything there is at the start, the initial font included. */
  ghost function FromAll(p: Phase, start: set<Node>): Config {
    p.collect.(enforceContext := true, preloaded := ReachedOf({}), start := start * p.begin)
  }

  /** A traversal to which the initial font counts as reached, without being traversed. */
  ghost function FromRest(p: Phase, start: set<Node>): Config {
    p.traversal.(enforceContext := true, preloaded := ReachedOf(p.initial), start := start * p.begin - p.initial)
  }

  /** For all active segments, the nodes whose condition is met are those that a traversal visits from the start. */
  ghost predicate MatchesTraversals(p: Phase, start: Conditions, conditions: Conditions) {
    forall active :: IsLeastClosed(FromAll(p, Nodes(start, Under(active))), Nodes(conditions, Under(active)) * p.begin)
  }

  /** The same, but for the initial font, of traversals that leave the initial font alone. */
  ghost predicate MatchesRest(p: Phase, start: Conditions, conditions: Conditions) {
    forall active, visited :: IsLeastClosed(FromRest(p, Nodes(start, Under(active))), visited) ==>
      visited - p.initial == Nodes(conditions, Under(active)) * p.begin - p.initial
  }

  /** The initial font has everything that its own nodes are enough for. */
  ghost predicate InitialIsClosed(p: Phase, incoming: Edges) {
    forall n :: Fires(incoming, n, p.initial) ==> n in p.initial
  }

  /** All that propagation is given and finds in a phase. */
  ghost predicate Finished(p: Phase, incoming: Edges, nodes: set<Node>, start: Conditions, conditions: Conditions) {
    && ComponentsOk(p) && StartOk(p, start) && Collected(p.collect, p.sources, incoming)
    && EdgesInPlace(p.collect, p.sources, p.begin, start.Keys)
    && Propagated(incoming, nodes, start, conditions)
    && forall active, n :: Fires(incoming, n, Nodes(conditions, Under(active))) ==> n in nodes + p.initial
  }

  lemma FiredIsMet(p: Phase, incoming: Edges, nodes: set<Node>, start: Conditions, conditions: Conditions, active: set<nat>)
    requires Finished(p, incoming, nodes, start, conditions)
    ensures var s, x := Nodes(start, Under(active)), Nodes(conditions, Under(active));
            && p.initial <= s <= start.Keys && IsLeast(incoming, nodes, s, x)
            && forall n :: Fires(incoming, n, x) ==> n in x
  {
    hide Fires, Collected, EdgesInPlace, ComponentsOk;
    var s, x := Nodes(start, Under(active)), Nodes(conditions, Under(active));
    assert IsLeast(incoming, nodes, s, x);
    forall n | n in p.initial ensures n in s {
      assert start[n].HoldsFor(active);
    }
    forall n | Fires(incoming, n, x) ensures n in x {
      assert n in nodes + p.initial;
      assert n in nodes ==> n in x;
    }
  }

  lemma NothingFires(p: Phase, incoming: Edges, n: Node)
    requires Collected(p.collect, p.sources, incoming)
    ensures !Fires(incoming, n, {})
  {
    hide Collected;
    CollectedIsWellFormed(p.collect, p.sources, incoming);
    if n in incoming {
      forall k | 0 <= k < |incoming[n]| ensures !CnfMet(incoming[n][k], {}) {
        assert incoming[n][k] != [] && !GroupMet(incoming[n][k][0], {});
      }
    }
  }

  lemma AllMatch(p: Phase, incoming: Edges, nodes: set<Node>, start: Conditions, conditions: Conditions)
    requires Finished(p, incoming, nodes, start, conditions)
    ensures MatchesTraversals(p, start, conditions)
  {
    hide Finished, Collected, EdgesInPlace, Propagated, IsLeast, IsLeastClosed, Fires, Follows, Nodes, ReachedOf;
    forall active ensures IsLeastClosed(FromAll(p, Nodes(start, Under(active))), Nodes(conditions, Under(active)) * p.begin) {
      var s, x := Nodes(start, Under(active)), Nodes(conditions, Under(active));
      FiredIsMet(p, incoming, nodes, start, conditions, active);
      assert Collected(p.collect, p.sources, incoming) && EdgesInPlace(p.collect, p.sources, p.begin, start.Keys) by {
        FinishedFacts(p, incoming, nodes, start, conditions);
      }
      forall n ensures !Fires(incoming, n, {}) { NothingFires(p, incoming, n); }
      SameEdges(p.collect, FromAll(p, s));
      ConditionsAreTraversed(FromAll(p, s), p.collect, p.sources, p.begin, start.Keys, incoming, nodes, s, x);
    }
  }

  lemma FinishedFacts(p: Phase, incoming: Edges, nodes: set<Node>, start: Conditions, conditions: Conditions)
    requires Finished(p, incoming, nodes, start, conditions)
    ensures Collected(p.collect, p.sources, incoming) && EdgesInPlace(p.collect, p.sources, p.begin, start.Keys)
  {
    hide Fires, Collected, EdgesInPlace;
  }

  lemma RestTraverses(p: Phase, start: set<Node>)
    requires TraversalOk(p)
    ensures TraversesBut(FromRest(p, start), p.collect, p.initial)
  {
    hide ReachedOf;
    var t := FromRest(p, start);
    forall n, e | IsEdge(p.collect, n, e)
      ensures (Follows(t, e) ==> Follows(p.collect, e)) && (Follows(p.collect, e) && e.Dest() !in p.initial ==> Follows(t, e))
    {
      assert Follows(t, e) <==> Follows(p.traversal, e);
    }
  }

  lemma RestMatches(p: Phase, incoming: Edges, nodes: set<Node>, start: Conditions, conditions: Conditions)
    requires Finished(p, incoming, nodes, start, conditions) && TraversalOk(p) && ListedWhereNeeded(p.collect, p.sources)
    requires InitialIsClosed(p, incoming)
    ensures MatchesRest(p, start, conditions)
  {
    hide Finished, Collected, EdgesInPlace, Propagated, IsLeast, IsLeastClosed, Fires, Follows, Nodes, ReachedOf, ListedWhereNeeded;
    forall active, visited | IsLeastClosed(FromRest(p, Nodes(start, Under(active))), visited)
      ensures visited - p.initial == Nodes(conditions, Under(active)) * p.begin - p.initial
    {
      var s, x := Nodes(start, Under(active)), Nodes(conditions, Under(active));
      FiredIsMet(p, incoming, nodes, start, conditions, active);
      FinishedFacts(p, incoming, nodes, start, conditions);
      RestTraverses(p, s);
      ConditionsMatchTraversal(FromRest(p, s), p.collect, p.sources, p.begin, start.Keys, p.initial, incoming, nodes, s, x, visited);
    }
  }

  /** Nothing but the initial font is there while no segment is active. */
  ghost predicate OnlyInitialAtFirst(p: Phase, start: Conditions) {
    Nodes(start, Under({})) <= p.initial
  }

  /** An initial font that is not closed makes the difference: a node that it is enough for is never visited. */
  lemma RestNeedsClosed(p: Phase, incoming: Edges, nodes: set<Node>, start: Conditions, conditions: Conditions)
    requires Finished(p, incoming, nodes, start, conditions) && OnlyInitialAtFirst(p, start)
    requires MatchesRest(p, start, conditions)
    ensures InitialIsClosed(p, incoming)
  {
    hide Finished, Collected, EdgesInPlace, Propagated, Fires, Follows, ReachedOf, Nodes;
    var s, x := Nodes(start, Under({})), Nodes(conditions, Under({}));
    FiredIsMet(p, incoming, nodes, start, conditions, {});
    var t, nothing: set<Node> := FromRest(p, s), {};
    assert t.start == {};
    assert ClosedUnder(t, nothing);
    assert IsLeastClosed(t, nothing);
    assert nothing - p.initial == x * p.begin - p.initial;
    forall n | Fires(incoming, n, p.initial) ensures n in p.initial {
      FiresMore(incoming, n, p.initial, x);
      FinishedFacts(p, incoming, nodes, start, conditions);
      FiredIsInPlace(p, incoming, start, n);
      assert n in x && n in p.begin;
      assert n !in nothing - p.initial;
    }
  }

  lemma FiredIsInPlace(p: Phase, incoming: Edges, start: Conditions, n: Node)
    requires Collected(p.collect, p.sources, incoming) && EdgesInPlace(p.collect, p.sources, p.begin, start.Keys)
    requires Fires(incoming, n, p.initial)
    ensures n in p.begin
  {
    hide Follows, CnfMet, CnfOf, Needs;
    var k :| 0 <= k < |incoming[n]| && CnfMet(incoming[n][k], p.initial);
    assert IsListed(p.collect, p.sources, n, incoming[n][k]);
    var m, e :| m in p.sources && ListedAs(p.collect, m, e, n, incoming[n][k]);
    assert EdgeInPlace(p.collect, p.sources, p.begin, start.Keys, m, e);
  }

  /** Every node reached from the starts gets the condition under which it is reached: with the edges of the dependency
      graph collected as requirements, propagation along the components agrees with traversing the graph, for every set
      of active segments. With traversals that leave the initial font alone it agrees if the initial font is closed, and
      only then if nothing else is there at first. */
  method PropagatePhase(p: Phase, allNodes: seq<Node>, starts: seq<Node>, ghost universe: set<Node>, start: Conditions, modified: set<Node>)
    returns (ok: bool, conditions: Conditions, modified': set<Node>, incoming: Edges, sccs: seq<seq<Node>>)
    requires p.sources == ToSet(allNodes) && NeedsLead(p.collect, p.sources) && EdgesInPlace(p.collect, p.sources, p.begin, start.Keys)
    requires ComponentsOk(p) && StartOk(p, start) && StartsCover(p, ToSet(starts), start) && ReachedIsKept(p, start)
    requires TarjanState.Closed(Successors(p.components), universe) && forall n :: n in starts ==> n in universe
    ensures ok && Collected(p.collect, p.sources, incoming)
    ensures Propagated(incoming, Members(sccs), start, conditions) && modified' == modified + (conditions.Keys - start.Keys)
    ensures forall n :: n in Members(sccs) <==> TarjanState.FromRoots(Successors(p.components), ToSet(starts), n)
    ensures MatchesTraversals(p, start, conditions)
    ensures TraversalOk(p) && ListedWhereNeeded(p.collect, p.sources) && InitialIsClosed(p, incoming) ==> MatchesRest(p, start, conditions)
    ensures MatchesRest(p, start, conditions) && OnlyInitialAtFirst(p, start) ==> InitialIsClosed(p, incoming)
  {
    hide *;
    incoming := CollectIncomingEdges(p.collect, allNodes);
    sccs := StrongComponents.StronglyConnectedComponents(Successors(p.components), starts, universe);
    PhaseIsOrdered(p, incoming, starts, start, sccs);
    CollectedIsWellFormed(p.collect, p.sources, incoming);
    assert AllValid(start) by { StartFacts(p, start); }
    ok, conditions, modified' := ConditionPropagation.PropagateConditions(incoming, sccs, start, modified);
    PhaseIsFinished(p, incoming, starts, start, conditions, sccs);
    AllMatch(p, incoming, Members(sccs), start, conditions);
    if TraversalOk(p) && ListedWhereNeeded(p.collect, p.sources) && InitialIsClosed(p, incoming) {
      RestMatches(p, incoming, Members(sccs), start, conditions);
    }
    if MatchesRest(p, start, conditions) && OnlyInitialAtFirst(p, start) {
      RestNeedsClosed(p, incoming, Members(sccs), start, conditions);
    }
  }

  lemma StartFacts(p: Phase, start: Conditions)
    requires StartOk(p, start)
    ensures AllValid(start)
  {
  }

  lemma StartsAsSet(starts: seq<Node>)
    ensures (set n | n in starts) == ToSet(starts)
  {
  }

  lemma PhaseIsOrdered(p: Phase, incoming: Edges, starts: seq<Node>, start: Conditions, sccs: seq<seq<Node>>)
    requires ComponentsOk(p) && Collected(p.collect, p.sources, incoming) && NeedsLead(p.collect, p.sources)
    requires StartsCover(p, ToSet(starts), start)
    requires TarjanState.IsCondensation(Successors(p.components), (set n | n in starts), sccs)
    ensures Ordered(incoming, sccs)
    ensures forall n :: n in Members(sccs) <==> TarjanState.FromRoots(Successors(p.components), ToSet(starts), n)
  {
    hide Collected, NeedsLead, Requires, Successors, TarjanState.FromRoots, TarjanState.IsComponent, TarjanState.IsCondensation, ComponentsOk,
      Follows, Members, Ordered;
    StartsAsSet(starts);
    var g, roots := Successors(p.components), ToSet(starts);
    forall n, m | n in Members(sccs) && m in Members(sccs) && Requires(incoming, n, m) ensures n in g(m) {
      MemberIsReached(g, roots, sccs, n);
      MembersAreKept(p, roots, n);
      RequiredIsSuccessor(p, incoming, n, m);
    }
    ComponentsAreOrdered(g, roots, sccs, incoming);
  }

  lemma MemberIsReached(g: Graph, roots: set<Node>, sccs: seq<seq<Node>>, n: Node)
    requires TarjanState.IsCondensation(g, roots, sccs) && n in Members(sccs)
    ensures TarjanState.FromRoots(g, roots, n)
  {
    hide TarjanState.FromRoots, TarjanState.IsComponent;
  }

  lemma PhaseIsFinished(p: Phase, incoming: Edges, starts: seq<Node>, start: Conditions, conditions: Conditions, sccs: seq<seq<Node>>)
    requires ComponentsOk(p) && StartOk(p, start) && StartsCover(p, ToSet(starts), start) && ReachedIsKept(p, start)
    requires Collected(p.collect, p.sources, incoming) && NeedsLead(p.collect, p.sources)
    requires EdgesInPlace(p.collect, p.sources, p.begin, start.Keys)
    requires Propagated(incoming, Members(sccs), start, conditions) && SameOutside(Members(sccs), start, conditions)
    requires forall n :: n in Members(sccs) <==> TarjanState.FromRoots(Successors(p.components), ToSet(starts), n)
    ensures Finished(p, incoming, Members(sccs), start, conditions)
  {
    hide Collected, NeedsLead, EdgesInPlace, TarjanState.FromRoots, Successors, Fires, ComponentsOk, StartsCover, StartOk, IsLeast, ReachedIsKept;
    forall active, n | Fires(incoming, n, Nodes(conditions, Under(active))) ensures n in Members(sccs) + p.initial {
      var s, x := Nodes(start, Under(active)), Nodes(conditions, Under(active));
      assert x <= Members(sccs) + start.Keys;
      forall m | m in x ensures TarjanState.FromRoots(Successors(p.collect), start.Keys, m) {
        ConditionsAreReached(p, incoming, Members(sccs), start, s, x, m);
      }
      FiresWithin(p, incoming, ToSet(starts), Members(sccs), start, Nodes(conditions, Under(active)), n);
    }
  }
}
