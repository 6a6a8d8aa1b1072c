/** What a phase of the dependency closure does for a font, in terms of the font alone. */
module FontClosure {
  import opened Wrappers
  import opened IntSets
  import opened Reachability
  import opened NodeConditions
  import opened TraversalState
  import opened SymbolicTraversal
  import opened DependencyEdges
  import opened ClosurePhase
  import opened FontPhases

  // ---------- the rules ----------

  function DefinitionOf(font: FontData, m: Node): Option<Definition> {
    if m.InitFont? then Some(font.initial)
    else if m.Segment? && m.id < |font.segments| then Some(font.segments[m.id])
    else None
  }

  predicate Lists(d: Definition, n: Node) {
    (n.Unicode? && n.id in d.codepoints) || (n.Feature? && n.id in d.features)
  }

  /** A segment, or the initial font, lists its code points and features. */
  ghost predicate ByDefinition(font: FontData, x: set<Node>, n: Node) {
    exists m :: m in x && DefinitionOf(font, m).Some? && Lists(DefinitionOf(font, m).value, n)
  }

  /** A code point has a glyph. */
  ghost predicate ByMapping(font: FontData, x: set<Node>, n: Node) {
    n.Glyph? && exists u :: Unicode(u) in x && u in font.glyphOf && font.glyphOf[u] == n.id
  }

  /** A base and a selector have a glyph together. */
  ghost predicate ByVariation(font: FontData, x: set<Node>, n: Node) {
    n.Glyph? && exists v :: v in font.variations && Unicode(v.0) in x && Unicode(v.1) in x && v.2 == n.id
  }

  /** Two code points make another one. */
  ghost predicate ByComposition(font: FontData, x: set<Node>, n: Node) {
    n.Unicode? && exists v :: v in font.compositions && Unicode(v.0) in x && Unicode(v.1) in x && v.2 == n.id
  }

  ghost predicate ByDecomposition(font: FontData, x: set<Node>, n: Node) {
    n.Unicode? && exists u :: Unicode(u) in x && u in font.decompositions && n.id in font.decompositions[u]
  }

  ghost predicate ByMirror(font: FontData, x: set<Node>, n: Node) {
    n.Unicode? && exists u :: Unicode(u) in x && u in font.mirrors && font.mirrors[u] != u && font.mirrors[u] == n.id
  }

  ghost predicate HasOneOf(x: set<Node>, glyphs: set<nat>) {
    exists y :: y in glyphs && Glyph(y) in x
  }

  /** What a substitution takes besides its glyph: the feature, and one glyph of each context group, or else the whole ligature. */
  ghost predicate Substitutes(entry: GlyphEntry, x: set<Node>) {
    && Feature(entry.feature) in x
    && (entry.context.Some? ==> forall i :: 0 <= i < |entry.context.value| ==> HasOneOf(x, entry.context.value[i]))
    && (entry.context.None? && entry.ligature.Some? ==> forall y :: y in entry.ligature.value ==> Glyph(y) in x)
  }

  ghost predicate GlyphTakes(font: FontData, table: nat, x: set<Node>, g: nat, entry: GlyphEntry) {
    && g < |font.entries| && entry in font.entries[g] && entry.table == table && Glyph(g) in x
    && (table == GSUB ==> Substitutes(entry, x))
  }

  /** A glyph has a dependency in a table. */
  ghost predicate ByGlyph(font: FontData, table: nat, x: set<Node>, n: Node) {
    n.Glyph? && exists g: nat, entry :: GlyphTakes(font, table, x, g, entry) && entry.dest == n.id
  }

  /** Within the full closure, and of a type that the phase leads to. */
  ghost predicate Within(full: Reached, kind: PhaseKind, n: Node) {
    && TypeOf(n) in kind.types
    && match n
       case Unicode(u) => u in full.unicodes
       case Glyph(g) => g in full.glyphs
       case Feature(f) => f in full.features
       case _ => false
  }

  /** The node follows from x by one of the rules of the phase. */
  ghost predicate FollowsByRule(font: FontData, full: Reached, kind: PhaseKind, x: set<Node>, n: Node) {
    && Within(full, kind, n)
    && (|| ByDefinition(font, x, n) || ByMapping(font, x, n) || ByMirror(font, x, n) || ByGlyph(font, kind.table, x, n)
        || (kind.table == CMAP && (ByVariation(font, x, n) || ByComposition(font, x, n) || ByDecomposition(font, x, n))))
  }

  ghost predicate ClosedByRules(font: FontData, full: Reached, kind: PhaseKind, x: set<Node>) {
    forall n :: FollowsByRule(font, full, kind, x, n) ==> n in x
  }

  /** x is the least set of nodes of the phase that holds the start and that the rules do not leave. */
  ghost predicate IsLeastByRules(font: FontData, full: Reached, kind: PhaseKind, start: set<Node>, x: set<Node>) {
    && start <= x <= AllNodes(font, full, kind.begin) && ClosedByRules(font, full, kind, x)
    && forall y :: start <= y <= AllNodes(font, full, kind.begin) && ClosedByRules(font, full, kind, y) ==> x <= y
  }

  // ---------- edges follow the rules ----------

  /** A traversal of all collected edges that has got to x. */
  ghost predicate IsTraversal(font: FontData, scope: Scope, kind: PhaseKind, t: Config) {
    && t == PhaseOf(font, scope, kind).collect.(enforceContext := true, preloaded := ReachedOf({}), start := t.start)
  }

  lemma FollowsWithin(font: FontData, scope: Scope, kind: PhaseKind, t: Config, m: Node, e: OutEdge)
    requires IsTraversal(font, scope, kind, t) && IsEdge(t, m, e) && Follows(t, e)
    ensures Within(scope.full, kind, e.Dest())
    ensures e.Conjunctive? ==> e.edge.tableTag == kind.table
    ensures e.Direct? && e.table.Some? ==> e.table.value == kind.table
  {
    hide EdgesAt, Possible;
    EdgeKinds(font, m, e);
  }

  lemma ReachedNodes(t: Config, x: set<Node>)
    requires t.preloaded == ReachedOf({})
    ensures SameReached(x, ReachedIn(t, x))
  {
    hide SameReached, ReachedOf, ReachedIn;
    VisitedIsReached(t, {}, x);
    assert x + {} == x;
  }

  /** A substitution that a traversal takes is one that the rules allow. */
  lemma SubstitutionFollows(font: FontData, t: Config, x: set<Node>, s: nat, entry: GlyphEntry)
    requires t.enforceContext && t.preloaded == ReachedOf({}) && IsSubstitution(font, s, entry)
    ensures Enabled(t, GsubEdge(s, entry), ReachedIn(t, x)) <==> GlyphTakes(font, GSUB, x, s, entry)
  {
    hide ReachedIn, ReachedOf;
    var e, r := GsubEdge(s, entry), ReachedIn(t, x);
    ReachedNodes(t, x);
    if entry.context.Some? {
      ContextMet(entry.context.value, x, r);
    }
    assert Enabled(t, e, r) <==> ConstraintsSatisfied(e.edge, r);
  }

  lemma ContextMet(groups: seq<set<nat>>, x: set<Node>, r: Reached)
    requires SameReached(x, r)
    ensures ContextSatisfied(groups, r.glyphs) <==> forall i :: 0 <= i < |groups| ==> HasOneOf(x, groups[i])
  {
    forall i | 0 <= i < |groups| ensures groups[i] * r.glyphs != {} <==> HasOneOf(x, groups[i]) {
      if y :| y in groups[i] && Glyph(y) in x {
        assert y in groups[i] * r.glyphs;
      }
      if groups[i] * r.glyphs != {} {
        var y :| y in groups[i] * r.glyphs;
      }
    }
  }

  lemma PairFollows(font: FontData, t: Config, x: set<Node>, e: OutEdge, a: nat, b: nat, dest: nat)
    requires t.enforceContext && t.preloaded == ReachedOf({}) && (e == UvsEdge(a, b, dest) || e == CompositionEdge(a, b, dest))
    ensures Enabled(t, e, ReachedIn(t, x)) <==> Unicode(a) in x && Unicode(b) in x
  {
    hide ReachedIn, ReachedOf;
    ReachedNodes(t, x);
    assert Enabled(t, e, ReachedIn(t, x)) <==> ConstraintsSatisfied(e.edge, ReachedIn(t, x));
  }

  /** What an edge leads to follows by a rule. */
  lemma EdgeFollowsRule(font: FontData, scope: Scope, kind: PhaseKind, t: Config, x: set<Node>, m: Node, e: OutEdge)
    requires IsTraversal(font, scope, kind, t) && m in x && IsEdge(t, m, e) && Follows(t, e) && Enabled(t, e, ReachedIn(t, x))
    ensures FollowsByRule(font, scope.full, kind, x, e.Dest())
  {
    hide Follows, Enabled, EdgesAt, GlyphEdges, UnicodeEdges, FeatureEdges, DefinitionEdges, ReachedIn, ReachedOf, InContext, Substitutes;
    FollowsWithin(font, scope, kind, t, m, e);
    EdgeIs(font, m, e);
    match m
    case Glyph(g) =>
      GlyphEdgeFollows(font, kind, t, x, g, e);
    case Unicode(u) =>
      UnicodeEdgeFollows(font, kind, t, x, u, e);
    case Feature(f) =>
      FeatureMember(font, f, e);
      var s: nat, entry :| IsFeatured(font, s, entry, e) && entry.feature == f;
      SubstitutionFollows(font, t, x, s, entry);
    case _ =>
      DefinitionMember(DefinitionOf(font, m).value, e);
      assert Lists(DefinitionOf(font, m).value, e.Dest());
  }

  lemma EdgeIs(font: FontData, m: Node, e: OutEdge)
    requires e in EdgesAt(font, m)
    ensures match m
            case Glyph(g) => e in GlyphEdges(font, g)
            case Unicode(u) => e in UnicodeEdges(font, u)
            case Feature(f) => e in FeatureEdges(font, f)
            case _ => DefinitionOf(font, m).Some? && e in DefinitionEdges(DefinitionOf(font, m).value)
  {
  }

  lemma GlyphEdgeFollows(font: FontData, kind: PhaseKind, t: Config, x: set<Node>, g: nat, e: OutEdge)
    requires t.enforceContext && t.preloaded == ReachedOf({}) && Glyph(g) in x
    requires e in GlyphEdges(font, g) && Enabled(t, e, ReachedIn(t, x))
    requires e.Conjunctive? ==> e.edge.tableTag == kind.table
    requires e.Direct? && e.table.Some? ==> e.table.value == kind.table
    ensures ByGlyph(font, kind.table, x, e.Dest())
  {
    hide Enabled, GlyphEdges, ReachedIn, ReachedOf, InContext, Substitutes;
    GlyphMember(font, g, e);
    if entry :| IsOwn(font, g, entry, e) {
      if entry.table == GSUB {
        SubstitutionFollows(font, t, x, g, entry);
      }
      assert GlyphTakes(font, kind.table, x, g, entry);
    } else {
      var s: nat, entry :| IsFeatured(font, s, entry, e) && InContext(entry, g);
      SubstitutionFollows(font, t, x, s, entry);
      assert GlyphTakes(font, kind.table, x, s, entry);
    }
  }

  lemma UnicodeEdgeFollows(font: FontData, kind: PhaseKind, t: Config, x: set<Node>, u: nat, e: OutEdge)
    requires t.enforceContext && t.preloaded == ReachedOf({}) && Unicode(u) in x
    requires e in UnicodeEdges(font, u) && Enabled(t, e, ReachedIn(t, x))
    requires e.Conjunctive? ==> e.edge.tableTag == kind.table
    requires e.Direct? && e.table.Some? ==> e.table.value == kind.table
    ensures var n := e.Dest();
            || ByMapping(font, x, n) || ByMirror(font, x, n)
            || (kind.table == CMAP && (ByVariation(font, x, n) || ByComposition(font, x, n) || ByDecomposition(font, x, n)))
  {
    hide Enabled, UnicodeEdges, VariationEdges, CompositionEdges, ReachedIn, ReachedOf;
    UnicodeEdgesAre(font, u, e);
    if e in VariationEdges(font, u) {
      VariationMember(font, u, e);
      var v :| v in font.variations && ((v.0 == u && e == UvsEdge(u, v.1, v.2)) || (v.1 == u && e == UvsEdge(u, v.0, v.2)));
      PairFollows(font, t, x, e, u, if e == UvsEdge(u, v.1, v.2) then v.1 else v.0, v.2);
      assert ByVariation(font, x, e.Dest());
    } else if e in CompositionEdges(font, u) {
      CompositionMember(font, u, e);
      var v :| v in font.compositions && ((v.0 == u && e == CompositionEdge(u, v.1, v.2)) || (v.1 == u && e == CompositionEdge(u, v.0, v.2)));
      PairFollows(font, t, x, e, u, if e == CompositionEdge(u, v.1, v.2) then v.1 else v.0, v.2);
      assert ByComposition(font, x, e.Dest());
    }
  }

  // ---------- rules follow edges ----------

  /** Some edge that the traversal may take leads from x to n. */
  ghost predicate IsTaken(t: Config, x: set<Node>, n: Node) {
    exists m, e :: Takes(t, x, m, e, n)
  }

  ghost predicate Takes(t: Config, x: set<Node>, m: Node, e: OutEdge, n: Node) {
    m in x && IsEdge(t, m, e) && Follows(t, e) && Enabled(t, e, ReachedIn(t, x)) && e.Dest() == n
  }

  lemma DirectTaken(font: FontData, scope: Scope, kind: PhaseKind, t: Config, x: set<Node>, m: Node, e: OutEdge)
    requires IsTraversal(font, scope, kind, t) && m in x && e in EdgesAt(font, m) && e.Direct?
    requires Within(scope.full, kind, e.Dest()) && (e.table.Some? ==> e.table.value == kind.table)
    ensures IsTaken(t, x, e.Dest())
  {
    hide EdgesAt, ReachedIn, ReachedOf;
    assert Takes(t, x, m, e, e.Dest());
  }

  lemma DefinitionTaken(font: FontData, scope: Scope, kind: PhaseKind, t: Config, x: set<Node>, n: Node)
    requires IsTraversal(font, scope, kind, t) && Within(scope.full, kind, n) && ByDefinition(font, x, n)
    ensures IsTaken(t, x, n)
  {
    hide DefinitionEdges, IsTraversal, IsTaken, Within;
    var m :| m in x && DefinitionOf(font, m).Some? && Lists(DefinitionOf(font, m).value, n);
    var e := Direct(n, None);
    DefinitionMember(DefinitionOf(font, m).value, e);
    assert e in EdgesAt(font, m);
    DirectTaken(font, scope, kind, t, x, m, e);
  }

  lemma CodePointTaken(font: FontData, scope: Scope, kind: PhaseKind, t: Config, x: set<Node>, n: Node)
    requires IsTraversal(font, scope, kind, t) && Within(scope.full, kind, n)
    requires ByMapping(font, x, n) || ByMirror(font, x, n) || (kind.table == CMAP && ByDecomposition(font, x, n))
    ensures IsTaken(t, x, n)
  {
    hide UnicodeEdges, IsTraversal, IsTaken, Within, IsPair;
    if ByMapping(font, x, n) {
      var u :| Unicode(u) in x && u in font.glyphOf && font.glyphOf[u] == n.id;
      UnicodeEdgesAre(font, u, Direct(n, None));
      DirectTaken(font, scope, kind, t, x, Unicode(u), Direct(n, None));
    } else if ByMirror(font, x, n) {
      var u :| Unicode(u) in x && u in font.mirrors && font.mirrors[u] != u && font.mirrors[u] == n.id;
      UnicodeEdgesAre(font, u, Direct(n, None));
      DirectTaken(font, scope, kind, t, x, Unicode(u), Direct(n, None));
    } else {
      var u :| Unicode(u) in x && u in font.decompositions && n.id in font.decompositions[u];
      UnicodeEdgesAre(font, u, Direct(n, Some(CMAP)));
      DirectTaken(font, scope, kind, t, x, Unicode(u), Direct(n, Some(CMAP)));
    }
  }

  lemma PairTaken(font: FontData, scope: Scope, kind: PhaseKind, t: Config, x: set<Node>, n: Node)
    requires IsTraversal(font, scope, kind, t) && Within(scope.full, kind, n) && kind.table == CMAP
    requires ByVariation(font, x, n) || ByComposition(font, x, n)
    ensures IsTaken(t, x, n)
  {
    hide UnicodeEdges, VariationEdges, CompositionEdges, ReachedIn, ReachedOf, Enabled;
    if ByVariation(font, x, n) {
      var v :| v in font.variations && Unicode(v.0) in x && Unicode(v.1) in x && v.2 == n.id;
      var e := UvsEdge(v.0, v.1, v.2);
      VariationMember(font, v.0, e);
      UnicodeEdgesAre(font, v.0, e);
      PairFollows(font, t, x, e, v.0, v.1, v.2);
      assert Takes(t, x, Unicode(v.0), e, n);
    } else {
      var v :| v in font.compositions && Unicode(v.0) in x && Unicode(v.1) in x && v.2 == n.id;
      var e := CompositionEdge(v.0, v.1, v.2);
      CompositionMember(font, v.0, e);
      UnicodeEdgesAre(font, v.0, e);
      PairFollows(font, t, x, e, v.0, v.1, v.2);
      assert Takes(t, x, Unicode(v.0), e, n);
    }
  }

  lemma GlyphTaken(font: FontData, scope: Scope, kind: PhaseKind, t: Config, x: set<Node>, n: Node)
    requires IsTraversal(font, scope, kind, t) && Within(scope.full, kind, n) && ByGlyph(font, kind.table, x, n)
    requires x <= AllNodes(font, scope.full, kind.begin)
    ensures IsTaken(t, x, n)
  {
    hide GlyphEdges, IsTaken, InContext, AllNodes, Substitutes, IsTraversal, Within;
    var g: nat, entry :| GlyphTakes(font, kind.table, x, g, entry) && entry.dest == n.id;
    if kind.table == GSUB {
      SubstitutionTaken(font, scope, kind, t, x, g, entry, n);
    } else {
      var e := EntryEdge(g, entry);
      GlyphMember(font, g, e);
      assert IsOwn(font, g, entry, e);
      DirectTaken(font, scope, kind, t, x, Glyph(g), e);
    }
  }

  lemma SubstitutionTaken(font: FontData, scope: Scope, kind: PhaseKind, t: Config, x: set<Node>, g: nat, entry: GlyphEntry, n: Node)
    requires IsTraversal(font, scope, kind, t) && Within(scope.full, kind, n) && kind.table == GSUB
    requires GlyphTakes(font, GSUB, x, g, entry) && entry.dest == n.id && n.Glyph?
    requires x <= AllNodes(font, scope.full, kind.begin)
    ensures IsTaken(t, x, n)
  {
    hide GlyphEdges, InContext, AllNodes, ReachedIn, ReachedOf, Enabled;
    var e := GsubEdge(g, entry);
    GlyphMember(font, g, e);
    assert IsOwn(font, g, entry, e);
    SubstitutionFollows(font, t, x, g, entry);
    InAllNodes(font, scope.full, kind.begin, Feature(entry.feature));
    SubstitutionPossible(font, scope, kind, x, entry);
    assert Takes(t, x, Glyph(g), e, n);
  }

  lemma SubstitutionPossible(font: FontData, scope: Scope, kind: PhaseKind, x: set<Node>, entry: GlyphEntry)
    requires Substitutes(entry, x) && x <= AllNodes(font, scope.full, kind.begin)
    ensures entry.context.Some? ==> ContextSatisfied(entry.context.value, scope.full.glyphs)
    ensures entry.context.None? && entry.ligature.Some? ==> LigatureSatisfied(entry.ligature.value, scope.full.glyphs)
  {
    hide AllNodes;
    forall y | Glyph(y) in x ensures y in scope.full.glyphs {
      InAllNodes(font, scope.full, kind.begin, Glyph(y));
    }
    if entry.context.Some? {
      var groups := entry.context.value;
      forall i | 0 <= i < |groups| ensures groups[i] * scope.full.glyphs != {} {
        assert HasOneOf(x, groups[i]);
        var y :| y in groups[i] && Glyph(y) in x;
        assert y in groups[i] * scope.full.glyphs;
      }
    }
  }

  /** For sets of nodes of the phase, being closed for the traversal and being closed by the rules is the same. */
  lemma ClosedAlike(font: FontData, scope: Scope, kind: PhaseKind, t: Config, x: set<Node>)
    requires IsTraversal(font, scope, kind, t) && x <= AllNodes(font, scope.full, kind.begin)
    ensures ClosedUnder(t, x) <==> ClosedByRules(font, scope.full, kind, x)
  {
    hide AllNodes, Follows, Enabled, FollowsByRule, IsTraversal, ReachedIn;
    if ClosedByRules(font, scope.full, kind, x) {
      forall m, e | m in x && IsEdge(t, m, e) && Follows(t, e) && Enabled(t, e, ReachedIn(t, x)) ensures e.Dest() in x {
        EdgeFollowsRule(font, scope, kind, t, x, m, e);
      }
    }
    if ClosedUnder(t, x) {
      forall n | FollowsByRule(font, scope.full, kind, x, n) ensures n in x {
        RuleIsTaken(font, scope, kind, t, x, n);
      }
    }
  }

  lemma RuleIsTaken(font: FontData, scope: Scope, kind: PhaseKind, t: Config, x: set<Node>, n: Node)
    requires IsTraversal(font, scope, kind, t) && x <= AllNodes(font, scope.full, kind.begin)
    requires FollowsByRule(font, scope.full, kind, x, n)
    ensures IsTaken(t, x, n)
  {
    hide AllNodes, IsTraversal, IsTaken, ByDefinition, ByMapping, ByMirror, ByGlyph, ByVariation, ByComposition, ByDecomposition, Within;
    if ByDefinition(font, x, n) {
      DefinitionTaken(font, scope, kind, t, x, n);
    } else if ByGlyph(font, kind.table, x, n) {
      GlyphTaken(font, scope, kind, t, x, n);
    } else if kind.table == CMAP && (ByVariation(font, x, n) || ByComposition(font, x, n)) {
      PairTaken(font, scope, kind, t, x, n);
    } else {
      CodePointTaken(font, scope, kind, t, x, n);
    }
  }

  /** A least set for the traversal is one for the rules. */
  lemma LeastAlike(font: FontData, scope: Scope, kind: PhaseKind, t: Config, x: set<Node>)
    requires IsTraversal(font, scope, kind, t) && x <= AllNodes(font, scope.full, kind.begin) && IsLeastClosed(t, x)
    ensures IsLeastByRules(font, scope.full, kind, t.start, x)
  {
    hide AllNodes, ClosedUnder, ClosedByRules, IsTraversal;
    forall y | y <= AllNodes(font, scope.full, kind.begin) ensures ClosedUnder(t, y) <==> ClosedByRules(font, scope.full, kind, y) {
      ClosedAlike(font, scope, kind, t, y);
    }
  }

  // ---------- the phase ----------

  /** For every set of active segments: the nodes whose condition is met are the least set that holds what is there at the
      start and that the rules of the font do not leave. */
  ghost predicate FollowsRules(font: FontData, scope: Scope, kind: PhaseKind, start: Conditions, conditions: Conditions) {
    var begin := AllNodes(font, scope.full, kind.begin);
    forall active :: IsLeastByRules(font, scope.full, kind, Nodes(start, Under(active)) * begin, Nodes(conditions, Under(active)) * begin)
  }

  lemma PhaseFollowsRules(font: FontData, scope: Scope, kind: PhaseKind, start: Conditions, conditions: Conditions)
    requires MatchesTraversals(PhaseOf(font, scope, kind), start, conditions)
    ensures FollowsRules(font, scope, kind, start, conditions)
  {
    hide AllNodes, Nodes, IsLeastClosed, IsLeastByRules;
    var p := PhaseOf(font, scope, kind);
    forall active
      ensures IsLeastByRules(font, scope.full, kind, Nodes(start, Under(active)) * p.begin, Nodes(conditions, Under(active)) * p.begin)
    {
      var s, x := Nodes(start, Under(active)), Nodes(conditions, Under(active)) * p.begin;
      assert IsLeastClosed(FromAll(p, s), x);
      LeastAlike(font, scope, kind, FromAll(p, s), x);
    }
  }

  /** A phase for a font: for every set of active segments, the conditions are met at exactly the nodes that the rules of the
      font lead to, and that traversals visit. If traversals leave the initial font alone this is so when the initial font is
      closed, and only then if nothing else is there at first. */
  method CloseFontPhase(font: FontData, scope: Scope, kind: PhaseKind, start: Conditions, modified: set<Node>)
    returns (conditions: Conditions, modified': set<Node>, incoming: Edges)
    requires kind in PHASES && LigaturesListed(font) && ScopeOk(scope) && WithinFull(scope, start.Keys)
    requires StartOk(PhaseOf(font, scope, kind), start) && ReachedIsKept(PhaseOf(font, scope, kind), start)
    ensures FollowsRules(font, scope, kind, start, conditions)
    ensures var p := PhaseOf(font, scope, kind);
            && Collected(p.collect, p.sources, incoming)
            && modified' == modified + (conditions.Keys - start.Keys)
            && MatchesTraversals(p, start, conditions)
            && (InitialIsClosed(p, incoming) ==> MatchesRest(p, start, conditions))
            && (MatchesRest(p, start, conditions) && OnlyInitialAtFirst(p, start) ==> InitialIsClosed(p, incoming))
  {
    hide *;
    var p, nodes, starts := PhaseOf(font, scope, kind), AllNodesVector(font, scope.full, kind.types), Starts(font, scope, kind);
    FontPhaseOk(font, scope, kind, start);
    var ok, sccs;
    ok, conditions, modified', incoming, sccs := PropagatePhase(p, nodes, starts, p.kept, start, modified);
    PhaseFollowsRules(font, scope, kind, start, conditions);
  }

  /** In the first phase a code point that is there brings its glyph with it. */
  lemma CodePointHasGlyph(font: FontData, scope: Scope, start: Conditions, conditions: Conditions, active: set<nat>, u: nat)
    requires FollowsRules(font, scope, PHASES[0], start, conditions)
    requires u in font.glyphOf && u in scope.full.unicodes && font.glyphOf[u] in scope.full.glyphs
    requires Unicode(u) in Nodes(conditions, Under(active))
    ensures Glyph(font.glyphOf[u]) in Nodes(conditions, Under(active))
  {
    hide AllNodes, Nodes;
    var begin := AllNodes(font, scope.full, PHASES[0].begin);
    var x := Nodes(conditions, Under(active)) * begin;
    InAllNodes(font, scope.full, PHASES[0].begin, Unicode(u));
    assert IsLeastByRules(font, scope.full, PHASES[0], Nodes(start, Under(active)) * begin, x);
    assert ByMapping(font, x, Glyph(font.glyphOf[u]));
    assert FollowsByRule(font, scope.full, PHASES[0], x, Glyph(font.glyphOf[u]));
  }
}
