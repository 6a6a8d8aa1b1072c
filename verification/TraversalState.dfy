/** Traversal of the dependency graph: which edges may be followed, and what holds at every step. */
module TraversalState {
  import opened Wrappers
  import opened Reachability

  datatype NodeType = INIT_FONT | SEGMENT | UNICODE | GLYPH | FEATURE

  function TypeOf(n: Node): NodeType {
    match n
    case InitFont => INIT_FONT
    case Segment(_) => SEGMENT
    case Unicode(_) => UNICODE
    case Glyph(_) => GLYPH
    case Feature(_) => FEATURE
  }

  /** An edge with requirements; the glyph sets that the program refers to by index are given directly. */
  datatype PendingEdge = PendingEdge(
    source: Node, dest: Node, tableTag: nat, requiredFeature: Option<nat>, requiredLigature: Option<set<nat>>,
    requiredContext: Option<seq<set<nat>>>, requiredCodepoints: Option<(nat, nat)>)

  /** An edge as it is met at a node: without requirements, or with. */
  datatype OutEdge = Direct(to: Node, table: Option<nat>) | Conjunctive(edge: PendingEdge)
  {
    function Dest(): Node {
      if Direct? then to else edge.dest
    }
  }

  datatype Filters = Filters(
    nodeTypes: set<NodeType>, tables: set<nat>, inclusion: Option<set<Node>>,
    features: Option<set<nat>>, glyphs: Option<set<nat>>, unicodes: Option<set<nat>>)
  {
    predicate ShouldFollow(node: Node, table: Option<nat>, feature: Option<nat>) {
      if TypeOf(node) !in nodeTypes then false
      else if table.Some? && table.value !in tables then false
      else if inclusion.Some? && node !in inclusion.value then false
      else if features.Some? && feature.Some? && feature.value !in features.value then false
      else if glyphs.Some? && node.Glyph? then node.id in glyphs.value
      else if unicodes.Some? && node.Unicode? then node.id in unicodes.value
      else if features.Some? && node.Feature? then node.id in features.value
      else true
    }
  }

  /** What has been reached, by type. */
  datatype Reached = Reached(unicodes: set<nat>, glyphs: set<nat>, features: set<nat>)

  predicate LigatureSatisfied(required: set<nat>, glyphs: set<nat>) {
    required <= glyphs
  }

  /** One glyph of each group is needed. */
  predicate ContextSatisfied(groups: seq<set<nat>>, glyphs: set<nat>) {
    forall i :: 0 <= i < |groups| ==> groups[i] * glyphs != {}
  }

  predicate ConstraintsSatisfied(e: PendingEdge, r: Reached) {
    && (e.source.Feature? ==> e.source.id in r.features)
    && (e.source.Unicode? ==> e.source.id in r.unicodes)
    && (e.source.Glyph? ==> e.source.id in r.glyphs)
    && (e.requiredCodepoints.Some? ==> e.requiredCodepoints.value.0 in r.unicodes && e.requiredCodepoints.value.1 in r.unicodes)
    && (e.requiredFeature.Some? ==> e.requiredFeature.value in r.features)
    && (e.requiredLigature.Some? ==> LigatureSatisfied(e.requiredLigature.value, r.glyphs))
    && (e.requiredContext.Some? ==> ContextSatisfied(e.requiredContext.value, r.glyphs))
  }

  ghost predicate Within(a: Reached, b: Reached) {
    a.unicodes <= b.unicodes && a.glyphs <= b.glyphs && a.features <= b.features
  }

  lemma SatisfiedMore(e: PendingEdge, a: Reached, b: Reached)
    requires ConstraintsSatisfied(e, a) && Within(a, b)
    ensures ConstraintsSatisfied(e, b)
  {
    if e.requiredContext.Some? {
      var groups := e.requiredContext.value;
      forall i | 0 <= i < |groups| ensures groups[i] * b.glyphs != {} {
        assert groups[i] * a.glyphs <= groups[i] * b.glyphs;
      }
    }
  }

  /** Everything about a traversal that stays fixed. */
  datatype Config = Config(
    outgoing: Node -> seq<OutEdge>, filters: Filters, fullClosure: set<nat>, enforceContext: bool,
    preloaded: Reached, start: set<Node>)

  /** An edge that no full closure could satisfy is never considered. */
  predicate Possible(e: PendingEdge, fullClosure: set<nat>) {
    if e.requiredContext.Some? then ContextSatisfied(e.requiredContext.value, fullClosure)
    else if e.requiredLigature.Some? then LigatureSatisfied(e.requiredLigature.value, fullClosure)
    else true
  }

  predicate Follows(c: Config, e: OutEdge) {
    match e
    case Direct(to, table) => c.filters.ShouldFollow(to, table, None)
    case Conjunctive(edge) =>
      Possible(edge, c.fullClosure) && c.filters.ShouldFollow(edge.dest, Some(edge.tableTag), edge.requiredFeature)
  }

  // ---------- the set that a traversal should visit ----------

  ghost function ReachedIn(c: Config, x: set<Node>): Reached {
    Reached(c.preloaded.unicodes + (set n | n in x && n.Unicode? :: n.id),
            c.preloaded.glyphs + (set n | n in x && n.Glyph? :: n.id),
            c.preloaded.features + (set n | n in x && n.Feature? :: n.id))
  }

  /** Requirements only matter when context is enforced. */
  ghost predicate Enabled(c: Config, e: OutEdge, r: Reached) {
    e.Direct? || !c.enforceContext || ConstraintsSatisfied(e.edge, r)
  }

  ghost predicate IsEdge(c: Config, n: Node, e: OutEdge) {
    e in c.outgoing(n)
  }

  ghost predicate ClosedUnder(c: Config, x: set<Node>) {
    forall n, e :: n in x && IsEdge(c, n, e) && Follows(c, e) && Enabled(c, e, ReachedIn(c, x)) ==> e.Dest() in x
  }

  ghost predicate IsLeastClosed(c: Config, x: set<Node>) {
    c.start <= x && ClosedUnder(c, x) && forall y :: c.start <= y && ClosedUnder(c, y) ==> x <= y
  }

  // ---------- the state of a traversal ----------

  datatype State = State(visited: set<Node>, next: seq<Node>, pending: seq<PendingEdge>, reached: Reached)

  ghost predicate ReachedOk(c: Config, s: State) {
    && (forall u :: u in s.reached.unicodes <==> u in c.preloaded.unicodes || Unicode(u) in s.visited)
    && (forall g :: g in s.reached.glyphs <==> g in c.preloaded.glyphs || Glyph(g) in s.visited)
    && (forall f :: f in s.reached.features <==> f in c.preloaded.features || Feature(f) in s.visited)
  }

  /** A codepoint that the filter keeps from ever being reached. */
  predicate CannotReach(c: Config, r: Reached, u: nat) {
    c.filters.unicodes.Some? && u !in r.unicodes && u !in c.filters.unicodes.value
  }

  predicate Hopeless(c: Config, r: Reached, e: PendingEdge) {
    && e.requiredCodepoints.Some?
    && (CannotReach(c, r, e.requiredCodepoints.value.0) || CannotReach(c, r, e.requiredCodepoints.value.1))
  }

  /** The edge leads nowhere new, or waits, or can never be satisfied. */
  ghost predicate Handled(c: Config, s: State, e: OutEdge) {
    || !Follows(c, e) || e.Dest() in s.visited
    || (e.Conjunctive? && c.enforceContext && (e.edge in s.pending || Hopeless(c, s.reached, e.edge)))
  }

  ghost predicate Expanded(c: Config, s: State, busy: set<Node>) {
    forall n, e :: n in s.visited && n !in s.next && n !in busy && IsEdge(c, n, e) ==> Handled(c, s, e)
  }

  ghost predicate Found(c: Config, s: State, e: PendingEdge) {
    Follows(c, Conjunctive(e)) && exists n :: n in s.visited && IsEdge(c, n, Conjunctive(e))
  }

  ghost predicate PendingOk(c: Config, s: State) {
    forall e :: e in s.pending ==> c.enforceContext && Found(c, s, e)
  }

  ghost predicate Sound(c: Config, s: State) {
    forall y :: c.start <= y && ClosedUnder(c, y) ==> s.visited <= y
  }

  ghost predicate Inv(c: Config, universe: set<Node>, busy: set<Node>, s: State) {
    && c.start <= s.visited <= universe
    && (forall n :: n in s.next ==> n in s.visited)
    && (c.enforceContext ==> ReachedOk(c, s))
    && Expanded(c, s, busy) && PendingOk(c, s) && Sound(c, s)
  }

  ghost predicate Closed(c: Config, universe: set<Node>) {
    forall n, e :: n in universe && IsEdge(c, n, e) ==> e.Dest() in universe
  }

  // ---------- reaching a node ----------

  function WithNode(r: Reached, n: Node): Reached {
    match n
    case Unicode(u) => r.(unicodes := r.unicodes + {u})
    case Glyph(g) => r.(glyphs := r.glyphs + {g})
    case Feature(f) => r.(features := r.features + {f})
    case _ => r
  }

  /** The node has been visited; if that is new, its edges are to be handled. */
  ghost function AfterReach(c: Config, s: State, n: Node): State {
    s.(visited := s.visited + {n}, next := if n in s.visited then s.next else s.next + [n],
       reached := if c.enforceContext then WithNode(s.reached, n) else s.reached)
  }

  lemma ReachKnown(c: Config, s: State, n: Node)
    requires n in s.visited && (c.enforceContext ==> ReachedOk(c, s))
    ensures AfterReach(c, s, n) == s
  {
    assert s.visited + {n} == s.visited;
    if c.enforceContext {
      var r := WithNode(s.reached, n);
      assert r.unicodes == s.reached.unicodes && r.glyphs == s.reached.glyphs && r.features == s.reached.features;
    }
  }

  lemma ReachReached(c: Config, s: State, n: Node)
    requires ReachedOk(c, s) && c.enforceContext
    ensures ReachedOk(c, AfterReach(c, s, n))
  {
  }

  /** What is reached is what the visited nodes amount to. */
  lemma ReachedIsReachedIn(c: Config, s: State)
    requires ReachedOk(c, s)
    ensures s.reached == ReachedIn(c, s.visited)
  {
    var r := ReachedIn(c, s.visited);
    forall u ensures u in s.reached.unicodes <==> u in r.unicodes {
      assert Unicode(u) in s.visited <==> Unicode(u) in (set n | n in s.visited && n.Unicode?);
      if Unicode(u) in s.visited { assert Unicode(u).id == u; }
    }
    forall g ensures g in s.reached.glyphs <==> g in r.glyphs {
      if Glyph(g) in s.visited { assert Glyph(g).id == g; }
    }
    forall f ensures f in s.reached.features <==> f in r.features {
      if Feature(f) in s.visited { assert Feature(f).id == f; }
    }
  }

  lemma ReachedInMore(c: Config, x: set<Node>, y: set<Node>)
    requires x <= y
    ensures Within(ReachedIn(c, x), ReachedIn(c, y))
  {
  }

  lemma ReachSound(c: Config, s: State, n: Node, e: OutEdge)
    requires Sound(c, s) && (c.enforceContext ==> ReachedOk(c, s))
    requires n in s.visited && IsEdge(c, n, e) && Follows(c, e) && Enabled(c, e, s.reached)
    ensures Sound(c, AfterReach(c, s, e.Dest()))
  {
    hide Follows, ReachedIn, IsEdge, ReachedOk, ConstraintsSatisfied;
    forall y | c.start <= y && ClosedUnder(c, y) ensures s.visited + {e.Dest()} <= y {
      assert s.visited <= y;
      if e.Conjunctive? && c.enforceContext {
        ReachedIsReachedIn(c, s);
        ReachedInMore(c, s.visited, y);
        SatisfiedMore(e.edge, s.reached, ReachedIn(c, y));
      }
      assert Enabled(c, e, ReachedIn(c, y));
    }
  }

  /** Nodes that may be followed are not among those that can never be reached. */
  lemma HopelessStays(c: Config, r: Reached, e: PendingEdge, d: OutEdge)
    requires Hopeless(c, r, e) && Follows(c, d)
    ensures Hopeless(c, WithNode(r, d.Dest()), e)
  {
  }

  lemma HandledStays(c: Config, s: State, t: State, e: OutEdge, d: OutEdge)
    requires Handled(c, s, e) && Follows(c, d)
    requires s.visited <= t.visited && (t.reached == s.reached || t.reached == WithNode(s.reached, d.Dest()))
    requires e.Conjunctive? && e.edge in s.pending ==> e.edge in t.pending || e.Dest() in t.visited
    ensures Handled(c, t, e)
  {
    hide Follows, Hopeless;
    if e.Conjunctive? && Hopeless(c, s.reached, e.edge) {
      HopelessStays(c, s.reached, e.edge, d);
    }
  }

  ghost predicate KeepsHandled(c: Config, s: State, t: State) {
    forall e :: Handled(c, s, e) ==> Handled(c, t, e)
  }

  /** Visited nodes stay; only newly visited ones are added to those that are to be expanded. */
  ghost predicate Advanced(s: State, t: State) {
    s.visited <= t.visited && (t.visited == s.visited ==> t.next == s.next)
  }

  lemma PopNext(c: Config, universe: set<Node>, s: State, t: State)
    requires Inv(c, universe, {}, s) && s.next != [] && t == s.(next := s.next[..|s.next| - 1])
    ensures Inv(c, universe, {s.next[|s.next| - 1]}, t) && s.next[|s.next| - 1] in s.visited
  {
    hide Follows, IsEdge, ClosedUnder, Hopeless;
    var n := s.next[|s.next| - 1];
    assert s.next == t.next + [n];
    forall m, e | m in t.visited && m !in t.next && m !in {n} && IsEdge(c, m, e) ensures Handled(c, t, e) {
      assert Handled(c, s, e);
    }
    hide Handled;
    assert PendingOk(c, t) by {
      forall p | p in t.pending ensures Found(c, t, p) {
        assert Found(c, s, p);
      }
    }
  }

  lemma DoneWith(c: Config, universe: set<Node>, n: Node, s: State)
    requires Inv(c, universe, {n}, s) && forall e :: IsEdge(c, n, e) ==> Handled(c, s, e)
    ensures Inv(c, universe, {}, s)
  {
    hide IsEdge, Handled, ReachedOk, PendingOk, Sound;
  }

  lemma WaitingIsFound(c: Config, s: State, p: PendingEdge) returns (n: Node)
    requires PendingOk(c, s) && p in s.pending
    ensures c.enforceContext && Found(c, s, p) && n in s.visited && IsEdge(c, n, Conjunctive(p)) && Follows(c, Conjunctive(p))
  {
    hide IsEdge, Follows;
    assert Found(c, s, p);
    n :| n in s.visited && IsEdge(c, n, Conjunctive(p));
  }

  lemma WithoutIndex(s: seq<PendingEdge>, i: nat)
    requires i < |s|
    ensures var r := s[..i] + s[i + 1..];
            && |r| == |s| - 1 && (forall k :: 0 <= k < i ==> r[k] == s[k])
            && (forall p :: p in r ==> p in s) && forall p :: p in s ==> p in r || p == s[i]
  {
    assert s == s[..i] + [s[i]] + s[i + 1..];
  }

  /** Following an enabled edge keeps what holds; a waiting edge to the same node may be dropped. */
  lemma Follow(c: Config, universe: set<Node>, busy: set<Node>, s: State, n: Node, e: OutEdge, t: State)
    requires Inv(c, universe, busy, s) && Closed(c, universe)
    requires n in s.visited && IsEdge(c, n, e) && Follows(c, e) && Enabled(c, e, s.reached)
    requires t == AfterReach(c, s, e.Dest()).(pending := t.pending)
    requires forall p :: p in t.pending ==> p in s.pending
    requires forall p :: p in s.pending ==> p in t.pending || p.dest == e.Dest()
    ensures Inv(c, universe, busy, t) && KeepsHandled(c, s, t)
  {
    hide Follows, IsEdge, Enabled, Handled, ConstraintsSatisfied, ClosedUnder;
    ReachSound(c, s, n, e);
    var r := AfterReach(c, s, e.Dest());
    assert Sound(c, t);
    hide Sound;
    if c.enforceContext {
      ReachReached(c, s, e.Dest());
      assert ReachedOk(c, t);
    }
    hide ReachedOk;
    forall d | Handled(c, s, d) ensures Handled(c, t, d) {
      HandledStays(c, s, t, d, e);
    }
    forall m, d | m in t.visited && m !in t.next && m !in busy && IsEdge(c, m, d) ensures Handled(c, t, d) {
      assert m in s.visited && m !in s.next;
      assert Handled(c, s, d);
    }
    assert PendingOk(c, t) by {
      forall p | p in t.pending ensures c.enforceContext && Found(c, t, p) {
        assert Found(c, s, p);
      }
    }
  }

  /** An edge that is not enabled yet waits. */
  lemma Wait(c: Config, universe: set<Node>, busy: set<Node>, s: State, n: Node, e: PendingEdge)
    requires Inv(c, universe, busy, s) && n in s.visited && IsEdge(c, n, Conjunctive(e)) && Follows(c, Conjunctive(e)) && c.enforceContext
    ensures Inv(c, universe, busy, s.(pending := s.pending + [e]))
    ensures Handled(c, s.(pending := s.pending + [e]), Conjunctive(e)) && KeepsHandled(c, s, s.(pending := s.pending + [e]))
  {
    hide Follows, IsEdge, ClosedUnder, Hopeless;
    var t := s.(pending := s.pending + [e]);
    assert Sound(c, t) && ReachedOk(c, t);
    hide Sound, ReachedOk;
    forall m, d | m in t.visited && m !in t.next && m !in busy && IsEdge(c, m, d) ensures Handled(c, t, d) {
      assert Handled(c, s, d);
    }
    assert PendingOk(c, t) by {
      forall p | p in t.pending ensures Found(c, t, p) {
        if p in s.pending {
          assert Found(c, s, p);
        }
      }
    }
  }

  /** When nothing is left to expand and no waiting edge is enabled, the least closed set has been visited. */
  lemma Finished(c: Config, universe: set<Node>, s: State)
    requires Inv(c, universe, {}, s) && s.next == []
    requires forall e :: e in s.pending ==> !ConstraintsSatisfied(e, s.reached)
    ensures IsLeastClosed(c, s.visited)
  {
    hide Follows, IsEdge, ReachedIn, ReachedOk;
    forall n, e | n in s.visited && IsEdge(c, n, e) && Follows(c, e) && Enabled(c, e, ReachedIn(c, s.visited)) ensures e.Dest() in s.visited {
      assert Handled(c, s, e);
      if c.enforceContext {
        ReachedIsReachedIn(c, s);
      }
    }
    assert ClosedUnder(c, s.visited);
  }

  lemma WaitingEdges(c: Config, universe: set<Node>, s: State, still: seq<PendingEdge>)
    requires Inv(c, universe, {}, s) && s.next == [] && forall e :: e in s.pending ==> !ConstraintsSatisfied(e, s.reached)
    requires forall e :: e in still <==> e in s.pending && e.dest !in s.visited
    ensures forall e :: e in still ==>
              c.enforceContext && Found(c, s, e) && e.dest !in s.visited && !ConstraintsSatisfied(e, ReachedIn(c, s.visited))
    ensures forall n, e :: n in s.visited && IsEdge(c, n, Conjunctive(e)) && Follows(c, Conjunctive(e)) && e.dest !in s.visited ==>
              c.enforceContext && (e in still || Hopeless(c, ReachedIn(c, s.visited), e))
  {
    hide Follows, IsEdge, ReachedIn, ReachedOk, Hopeless, ConstraintsSatisfied;
    if c.enforceContext {
      ReachedIsReachedIn(c, s);
    }
    forall e | e in still ensures c.enforceContext && Found(c, s, e) {
      var n := WaitingIsFound(c, s, e);
    }
    forall n, e | n in s.visited && IsEdge(c, n, Conjunctive(e)) && Follows(c, Conjunctive(e)) && e.dest !in s.visited
      ensures c.enforceContext && (e in still || Hopeless(c, ReachedIn(c, s.visited), e))
    {
      assert Handled(c, s, Conjunctive(e));
    }
  }
}
