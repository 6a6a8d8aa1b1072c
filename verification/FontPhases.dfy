/** The phases of the dependency closure of a font: what their steps look at, and why propagation and traversals agree. */
module FontPhases {
  import opened Wrappers
  import opened IntSets
  import opened Reachability
  import opened NodeConditions
  import opened TraversalState
  import opened SymbolicTraversal
  import opened DependencyEdges
  import opened ClosurePhase
  import TarjanState

  /** Of which table the edges are, between nodes of which types they lead, and from which types traversals start. */
  datatype PhaseKind = PhaseKind(table: nat, types: set<NodeType>, begin: set<NodeType>)

  const ALL_TYPES: set<NodeType> := {INIT_FONT, SEGMENT, UNICODE, GLYPH, FEATURE}

  /** cmap, GSUB, MATH, COLR, glyf and CFF. In the first phase only segments and the initial font have a condition when it
      starts, so that all types may stand for the segments that traversals start from. */
  const PHASES: seq<PhaseKind> := [
    PhaseKind(CMAP, ALL_TYPES, ALL_TYPES),
    PhaseKind(GSUB, {GLYPH}, {GLYPH, FEATURE}),
    PhaseKind(Tag("MATH"), {GLYPH}, {GLYPH}),
    PhaseKind(Tag("COLR"), {GLYPH}, {GLYPH}),
    PhaseKind(Tag("glyf"), {GLYPH}, {GLYPH}),
    PhaseKind(Tag("CFF "), {GLYPH}, {GLYPH})]

  /** What is known of the segmentation: everything that all segments together reach, the initial font, and what is kept. */
  datatype Scope = Scope(full: Reached, initial: Reached, kept: set<Node>)

  function NodesOf(r: Reached): set<Node> {
    (set u | u in r.unicodes :: Unicode(u)) + (set g | g in r.glyphs :: Glyph(g)) + (set f | f in r.features :: Feature(f))
  }

  /** The nodes of some types within the full closure. */
  function AllNodes(font: FontData, full: Reached, types: set<NodeType>): set<Node> {
    set n | n in NodesOf(full) + {InitFont} + (set s | 0 <= s < |font.segments| && font.segments[s] != Definition({}, {}) :: Segment(s))
            && TypeOf(n) in types
  }

  function FiltersOf(kind: PhaseKind, scope: Scope, inclusion: Option<set<Node>>, glyphs: set<nat>, unicodes: set<nat>): Filters {
    Filters(kind.types, {kind.table}, inclusion, Some(scope.full.features), Some(glyphs), Some(unicodes))
  }

  function ConfigOf(font: FontData, scope: Scope, filters: Filters): Config {
    Config(Outgoing(font), filters, scope.full.glyphs, false, Reached({}, {}, {}), {})
  }

  /** Requirements are collected within the full closure; components are looked for among the nodes that are kept outside
      the initial font; traversals go anywhere outside the initial font. */
  function PhaseOf(font: FontData, scope: Scope, kind: PhaseKind): Phase {
    var full, initial := scope.full, scope.initial;
    var glyphs, unicodes := full.glyphs - initial.glyphs, full.unicodes - initial.unicodes;
    Phase(
      ConfigOf(font, scope, FiltersOf(kind, scope, None, full.glyphs, full.unicodes)),
      ConfigOf(font, scope, FiltersOf(kind, scope, Some(scope.kept), glyphs, unicodes)),
      ConfigOf(font, scope, FiltersOf(kind, scope, None, glyphs, unicodes)),
      AllNodes(font, full, kind.types), AllNodes(font, full, kind.begin), scope.kept, NodesOf(initial) + {InitFont})
  }

  ghost predicate ScopeOk(scope: Scope) {
    && NO_TAG !in scope.full.features && InitFont !in scope.kept
    && forall n :: n in scope.kept ==> !(n.Glyph? && n.id in scope.initial.glyphs) && !(n.Unicode? && n.id in scope.initial.unicodes)
  }

  /** Code points and glyphs with a condition are within the full closure. */
  ghost predicate WithinFull(scope: Scope, present: set<Node>) {
    forall n :: n in present ==> (n.Glyph? ==> n.id in scope.full.glyphs) && (n.Unicode? ==> n.id in scope.full.unicodes)
  }

  lemma InAllNodes(font: FontData, full: Reached, types: set<NodeType>, n: Node)
    ensures n in AllNodes(font, full, types) <==>
              && TypeOf(n) in types
              && match n
                 case Unicode(u) => u in full.unicodes
                 case Glyph(g) => g in full.glyphs
                 case Feature(f) => f in full.features
                 case Segment(s) => s < |font.segments| && font.segments[s] != Definition({}, {})
                 case InitFont => true
  {
  }

  lemma EdgeKinds(font: FontData, n: Node, e: OutEdge)
    requires e in EdgesAt(font, n)
    ensures e.Dest().Unicode? || e.Dest().Glyph? || e.Dest().Feature?
    ensures n.Feature? ==> e.Conjunctive? && e.edge.tableTag == GSUB
  {
    hide GlyphEdges, FeatureEdges, UnicodeEdges, DefinitionEdges, InContext;
    match n
    case Glyph(g) => GlyphMember(font, g, e);
    case Unicode(u) => UnicodeMember(font, u, e);
    case Feature(f) => FeatureMember(font, f, e);
    case Segment(_) => DirectOnly(font, n, e);
    case InitFont => DirectOnly(font, n, e);
  }

  /** Edges that may be followed stay within the full closure. */
  lemma FollowedStaysWithin(font: FontData, scope: Scope, kind: PhaseKind, n: Node, e: OutEdge)
    requires e in EdgesAt(font, n) && Follows(PhaseOf(font, scope, kind).collect, e)
    ensures e.Dest() in AllNodes(font, scope.full, kind.types)
    ensures e.Conjunctive? ==> e.edge.tableTag == kind.table && (e.edge.requiredFeature.Some? ==> e.edge.requiredFeature.value in scope.full.features)
  {
    hide EdgesAt, Possible, AllNodes;
    EdgeKinds(font, n, e);
    InAllNodes(font, scope.full, kind.types, e.Dest());
  }

  /** A substitution at a glyph that is a source: it is listed at its own glyph, which is a source, too, if it has no context. */
  lemma SubstitutionAt(font: FontData, g: nat, e: OutEdge) returns (s: nat, entry: GlyphEntry)
    requires e in GlyphEdges(font, g) && e.Conjunctive?
    ensures IsSubstitution(font, s, entry) && e == GsubEdge(s, entry) && (entry.context.None? ==> s == g)
  {
    hide GlyphEdges, InContext;
    GlyphMember(font, g, e);
    if own :| IsOwn(font, g, own, e) {
      s, entry := g, own;
    } else {
      var s': nat, entry' :| IsFeatured(font, s', entry', e) && InContext(entry', g);
      s, entry := s', entry';
      ContextIsSome(entry, g);
    }
  }

  lemma ContextIsSome(entry: GlyphEntry, g: nat)
    requires InContext(entry, g)
    ensures entry.context.Some?
  {
  }

  lemma OwnIsListed(font: FontData, s: nat, entry: GlyphEntry)
    requires IsSubstitution(font, s, entry)
    ensures GsubEdge(s, entry) in EdgesAt(font, Glyph(s))
  {
    hide GlyphEdges, InContext;
    GlyphMember(font, s, GsubEdge(s, entry));
    assert IsOwn(font, s, entry, GsubEdge(s, entry));
  }

  /** The edges of a font are listed at everything that they need. */
  lemma FontListsNeeds(font: FontData, scope: Scope, kind: PhaseKind)
    requires LigaturesListed(font) && ScopeOk(scope) && kind in PHASES
    ensures var p := PhaseOf(font, scope, kind); ListedWhereNeeded(p.collect, p.sources) && NeedsLead(p.collect, p.sources)
  {
    hide LigaturesListed, Follows, Needs, AllNodes, EdgesAt, GlyphEdges, VariationEdges, CompositionEdges, ListedFor;
    var p := PhaseOf(font, scope, kind);
    forall m, e, x | m in p.sources && IsEdge(p.collect, m, e) && Follows(p.collect, e) && e.Conjunctive? && Needs(m, e, x)
      ensures ListedFor(p.collect, x, e)
    {
      NeedIsListed(font, scope, kind, m, e, x);
    }
    ListedLeads(p.collect, p.sources);
  }

  lemma NeedIsListed(font: FontData, scope: Scope, kind: PhaseKind, m: Node, e: OutEdge, x: Node)
    requires LigaturesListed(font) && ScopeOk(scope) && kind in PHASES && m in AllNodes(font, scope.full, kind.types)
    requires e in EdgesAt(font, m) && e.Conjunctive? && Needs(m, e, x)
    requires Follows(PhaseOf(font, scope, kind).collect, e)
    ensures ListedFor(PhaseOf(font, scope, kind).collect, x, e)
  {
    hide LigaturesListed, Follows, Needs, AllNodes, GlyphEdges, UnicodeEdges, FeatureEdges, DefinitionEdges, VariationEdges, CompositionEdges, ListedFor;
    var p := PhaseOf(font, scope, kind);
    InAllNodes(font, scope.full, kind.types, m);
    FollowedStaysWithin(font, scope, kind, m, e);
    match m
    case Glyph(g) =>
      var s, entry := SubstitutionAt(font, g, e);
      SubstitutionListed(font, p.collect, s, entry, m, x);
    case Unicode(u) =>
      UnicodeMember(font, u, e);
      PairListed(font, p.collect, u, e, x);
    case Feature(_) =>
      EdgeKinds(font, m, e);
    case Segment(_) => DirectOnly(font, m, e);
    case InitFont => DirectOnly(font, m, e);
  }

  /** The edges of a font are where each phase expects them. */
  lemma FontEdgesInPlace(font: FontData, scope: Scope, kind: PhaseKind, present: set<Node>)
    requires ScopeOk(scope) && kind in PHASES && WithinFull(scope, present)
    ensures var p := PhaseOf(font, scope, kind); EdgesInPlace(p.collect, p.sources, p.begin, present)
  {
    hide Follows, Needs, EdgesAt, EdgeInPlace, ScopeOk, WithinFull;
    var p := PhaseOf(font, scope, kind);
    forall n | n in p.sources ensures n in p.begin {
      InAllNodes(font, scope.full, kind.types, n);
      InAllNodes(font, scope.full, kind.begin, n);
    }
    forall m, e | m in p.begin && IsEdge(p.collect, m, e) && Follows(p.collect, e)
      ensures EdgeInPlace(p.collect, p.sources, p.begin, present, m, e)
    {
      FontEdgeInPlace(font, scope, kind, present, m, e);
    }
  }

  lemma FontEdgeInPlace(font: FontData, scope: Scope, kind: PhaseKind, present: set<Node>, m: Node, e: OutEdge)
    requires kind in PHASES && WithinFull(scope, present) && m in AllNodes(font, scope.full, kind.begin)
    requires e in EdgesAt(font, m) && Follows(PhaseOf(font, scope, kind).collect, e)
    ensures var p := PhaseOf(font, scope, kind); EdgeInPlace(p.collect, p.sources, p.begin, present, m, e)
  {
    hide Follows, Needs, AllNodes, EdgesAt, WithinFull, EdgeInPlace;
    var p := PhaseOf(font, scope, kind);
    FollowedStaysWithin(font, scope, kind, m, e);
    EdgeKinds(font, m, e);
    InAllNodes(font, scope.full, kind.begin, m);
    InAllNodes(font, scope.full, kind.types, m);
    if e.Direct? {
      DirectInPlace(p.collect, p.sources, p.begin, present, m, e);
    } else {
      ConjunctiveKinds(font, m, e);
      if m.Unicode? {
        forall x | Needs(m, e, x) && x in present ensures x in p.begin {
          PairNeeds(font, m.id, e, m, x);
          WithinIsFull(scope, present, x);
          InAllNodes(font, scope.full, kind.begin, x);
        }
        ConjunctiveInPlace(p.collect, p.sources, p.begin, present, m, e);
      } else {
        var s: nat, entry :| IsSubstitution(font, s, entry) && e == GsubEdge(s, entry);
        OwnIsListed(font, s, entry);
        InAllNodes(font, scope.full, kind.begin, Glyph(s));
        InAllNodes(font, scope.full, kind.types, Glyph(s));
        forall x | Needs(m, e, x) && x in present ensures x in p.begin {
          SubstitutionNeeds(s, entry, m, x);
          WithinIsFull(scope, present, x);
          InAllNodes(font, scope.full, kind.begin, x);
        }
        ConjunctiveInPlace(p.collect, p.sources, p.begin, present, m, e);
      }
    }
  }

  lemma WithinIsFull(scope: Scope, present: set<Node>, x: Node)
    requires WithinFull(scope, present) && x in present
    ensures (x.Glyph? ==> x.id in scope.full.glyphs) && (x.Unicode? ==> x.id in scope.full.unicodes)
  {
  }

  lemma DirectInPlace(c: Config, sources: set<Node>, begin: set<Node>, present: set<Node>, m: Node, e: OutEdge)
    requires e.Direct? && e.Dest() in sources && m in sources && m in begin
    ensures EdgeInPlace(c, sources, begin, present, m, e)
  {
    forall x | Needs(m, e, x) ensures x == m {
      var k :| 0 <= k < |CnfOf(m, e)| && x in CnfOf(m, e)[k];
    }
  }

  lemma ConjunctiveInPlace(c: Config, sources: set<Node>, begin: set<Node>, present: set<Node>, m: Node, e: OutEdge)
    requires e.Conjunctive? && e.Dest() in sources && IsNode(e.edge.source) && IsEdge(c, e.edge.source, e)
    requires e.edge.source in begin ==> e.edge.source in sources
    requires forall x :: Needs(m, e, x) && x in present ==> x in begin
    ensures EdgeInPlace(c, sources, begin, present, m, e)
  {
  }

  /** The filters of the three steps differ by what is kept, and by the initial font. */
  lemma FontFilters(font: FontData, scope: Scope, kind: PhaseKind)
    requires ScopeOk(scope)
    ensures var p := PhaseOf(font, scope, kind);
            && TraversalOk(p)
            && p.components.outgoing == p.collect.outgoing
            && forall m, e :: IsEdge(p.collect, m, e) ==> (Follows(p.components, e) <==> Follows(p.collect, e) && e.Dest() in p.kept)
  {
    hide Possible, EdgesAt, AllNodes, NodesOf;
    var p := PhaseOf(font, scope, kind);
    forall m, e | IsEdge(p.collect, m, e)
      ensures Follows(p.components, e) <==> Follows(p.collect, e) && e.Dest() in p.kept
      ensures Follows(p.traversal, e) ==> Follows(p.collect, e)
      ensures Follows(p.collect, e) && e.Dest() !in p.initial ==> Follows(p.traversal, e)
    {
      InNodesOf(scope.initial, e.Dest());
    }
  }

  lemma InNodesOf(r: Reached, n: Node)
    ensures n.Glyph? ==> (n in NodesOf(r) <==> n.id in r.glyphs)
    ensures n.Unicode? ==> (n in NodesOf(r) <==> n.id in r.unicodes)
    ensures n.Feature? ==> (n in NodesOf(r) <==> n.id in r.features)
  {
  }

  // ---------- the nodes that the steps go through ----------

  /** All sources, type by type. */
  function AllNodesVector(font: FontData, full: Reached, types: set<NodeType>): seq<Node> {
    (if INIT_FONT in types then [InitFont] else [])
    + (if SEGMENT in types then SegmentNodes(font.segments, |font.segments|) else [])
    + (if UNICODE in types then Each(ToVector(full.unicodes), (u: nat) => [Unicode(u)]) else [])
    + (if FEATURE in types then Each(ToVector(full.features), (f: nat) => [Feature(f)]) else [])
    + (if GLYPH in types then Each(ToVector(full.glyphs), (g: nat) => [Glyph(g)]) else [])
  }

  function SegmentNodes(segments: seq<Definition>, n: nat): seq<Node>
    requires n <= |segments|
  {
    if n == 0 then [] else SegmentNodes(segments, n - 1) + (if segments[n - 1] != Definition({}, {}) then [Segment(n - 1)] else [])
  }

  lemma {:induction false} SegmentMember(segments: seq<Definition>, n: nat, m: Node)
    requires n <= |segments|
    ensures m in SegmentNodes(segments, n) <==> m.Segment? && m.id < n && segments[m.id] != Definition({}, {})
  {
    if n > 0 {
      SegmentMember(segments, n - 1, m);
      var last := if segments[n - 1] != Definition({}, {}) then [Segment(n - 1)] else [];
      assert m in last <==> m == Segment(n - 1) && segments[n - 1] != Definition({}, {});
      assert SegmentNodes(segments, n) == SegmentNodes(segments, n - 1) + last;
    }
  }

  lemma VectorIsAllNodes(font: FontData, full: Reached, types: set<NodeType>)
    ensures ToSet(AllNodesVector(font, full, types)) == AllNodes(font, full, types)
  {
    hide ToVector, AllNodes, SegmentNodes, Each;
    forall n ensures n in AllNodesVector(font, full, types) <==> n in AllNodes(font, full, types) {
      InAllNodes(font, full, types, n);
      SegmentMember(font.segments, |font.segments|, n);
      EachMember(ToVector(full.unicodes), (u: nat) => [Unicode(u)], n);
      EachMember(ToVector(full.features), (f: nat) => [Feature(f)], n);
      EachMember(ToVector(full.glyphs), (g: nat) => [Glyph(g)], n);
    }
  }

  /** The search for components starts at all nodes that are kept; none of them belongs to the initial font. */
  function Starts(font: FontData, scope: Scope, kind: PhaseKind): seq<Node> {
    Each(AllNodesVector(font, scope.full, kind.types), (n: Node) => if n in scope.kept then [n] else [])
  }

  lemma StartMember(font: FontData, scope: Scope, kind: PhaseKind, n: Node)
    ensures n in Starts(font, scope, kind) <==> n in AllNodes(font, scope.full, kind.types) && n in scope.kept
  {
    hide AllNodesVector, AllNodes, Each;
    VectorIsAllNodes(font, scope.full, kind.types);
    assert n in AllNodesVector(font, scope.full, kind.types) <==> n in ToSet(AllNodesVector(font, scope.full, kind.types));
    EachMember(AllNodesVector(font, scope.full, kind.types), (m: Node) => if m in scope.kept then [m] else [], n);
  }

  lemma FontStartsCover(font: FontData, scope: Scope, kind: PhaseKind, start: Conditions)
    requires ScopeOk(scope)
    ensures var p := PhaseOf(font, scope, kind);
            && StartsCover(p, ToSet(Starts(font, scope, kind)), start)
            && TarjanState.Closed(Successors(p.components), p.kept)
  {
    hide Starts, AllNodes, Successors, Follows, EdgesAt, NodesOf, ScopeOk;
    var p := PhaseOf(font, scope, kind);
    FontFilters(font, scope, kind);
    forall n ensures n in ToSet(Starts(font, scope, kind)) <==> n in AllNodes(font, scope.full, kind.types) && n in scope.kept {
      StartMember(font, scope, kind, n);
    }
    forall m, n | Leads(p.components, m, n) ensures n in p.kept && n in ToSet(Starts(font, scope, kind)) {
      var e :| IsEdge(p.components, m, e) && Follows(p.components, e) && e.Dest() == n;
      assert IsEdge(p.collect, m, e) && Follows(p.collect, e);
      FollowedStaysWithin(font, scope, kind, m, e);
    }
    forall m, n | m in p.kept && n in Successors(p.components)(m) ensures n in p.kept {
      SuccessorOf(p.components, m, n);
    }
  }

  lemma FontPhaseOk(font: FontData, scope: Scope, kind: PhaseKind, start: Conditions)
    requires kind in PHASES && LigaturesListed(font) && ScopeOk(scope) && WithinFull(scope, start.Keys)
    ensures var p, starts := PhaseOf(font, scope, kind), Starts(font, scope, kind);
            && p.sources == ToSet(AllNodesVector(font, scope.full, kind.types))
            && NeedsLead(p.collect, p.sources) && ListedWhereNeeded(p.collect, p.sources)
            && EdgesInPlace(p.collect, p.sources, p.begin, start.Keys)
            && ComponentsOk(p) && TraversalOk(p) && StartsCover(p, ToSet(starts), start)
            && TarjanState.Closed(Successors(p.components), p.kept) && (forall n :: n in starts ==> n in p.kept)
  {
    hide Starts, AllNodes, AllNodesVector, Successors, Follows, EdgesAt, NodesOf, ScopeOk, NeedsLead, ListedWhereNeeded, EdgesInPlace, TraversalOk,
      LigaturesListed, WithinFull, StartsCover, TarjanState.Closed;
    VectorIsAllNodes(font, scope.full, kind.types);
    FontListsNeeds(font, scope, kind);
    FontEdgesInPlace(font, scope, kind, start.Keys);
    FontFilters(font, scope, kind);
    FontStartsCover(font, scope, kind, start);
    forall n | n in Starts(font, scope, kind) ensures n in scope.kept {
      StartMember(font, scope, kind, n);
    }
  }

  // ---------- a font with a ligature ----------

  /** Glyphs f, i and fi. The ligature is a dependency of f, which also takes i, and of i, which also takes f. */
  const LIGA: nat := Tag("liga")
  const FROM_F := GlyphEntry(GSUB, 3, LIGA, Some({2}), None)
  const FROM_I := GlyphEntry(GSUB, 3, LIGA, Some({1}), None)
  const LIGATURE_FONT := FontData([[], [FROM_F], [FROM_I], []], map[], [], [], map[], map[], [], Definition({}, {}))
  const LIGATURE_SCOPE := Scope(Reached({}, {1, 2, 3}, {LIGA}), Reached({}, {}, {}), {Glyph(1), Glyph(2), Glyph(3), Feature(LIGA)})

  /** Its two edges have sources of their own, and neither is listed at the source of the other; each stands for the other
      there. What is collected for fi is that f, i and the feature are needed, from both sides. */
  lemma LigatureIsListed(incoming: Edges)
    ensures LigaturesListed(LIGATURE_FONT) && ScopeOk(LIGATURE_SCOPE)
    ensures var p, e, f := PhaseOf(LIGATURE_FONT, LIGATURE_SCOPE, PHASES[1]), GsubEdge(1, FROM_F), GsubEdge(2, FROM_I);
            && IsEdge(p.collect, Glyph(1), e) && !IsEdge(p.collect, Glyph(2), e) && Follows(p.collect, e)
            && IsEdge(p.collect, Glyph(2), f) && !IsEdge(p.collect, Glyph(1), f) && Follows(p.collect, f)
            && ListedWhereNeeded(p.collect, p.sources) && SameNeeds(e, f)
            && (Collected(p.collect, p.sources, incoming) ==>
                  && IsIncoming(incoming, Glyph(3), CnfOf(Glyph(1), e))
                  && IsIncoming(incoming, Glyph(3), CnfOf(Glyph(2), f)))
  {
    hide AllNodes, EdgesAt, GlyphEdges, ExtractRequirements, ListedWhereNeeded, SameNeeds;
    var p, e, f := PhaseOf(LIGATURE_FONT, LIGATURE_SCOPE, PHASES[1]), GsubEdge(1, FROM_F), GsubEdge(2, FROM_I);
    ExampleListed();
    FontListsNeeds(LIGATURE_FONT, LIGATURE_SCOPE, PHASES[1]);
    ExampleEdges();
    InAllNodes(LIGATURE_FONT, LIGATURE_SCOPE.full, {GLYPH}, Glyph(1));
    InAllNodes(LIGATURE_FONT, LIGATURE_SCOPE.full, {GLYPH}, Glyph(2));
    assert FROM_F.ligature.value <= {1, 2, 3} && FROM_I.ligature.value <= {1, 2, 3};
    forall r ensures ConstraintsSatisfied(e.edge, r) <==> ConstraintsSatisfied(f.edge, r) {
      SameParts({2}, 1, {1}, 2, r.glyphs);
    }
    SatisfiedAlike(e, f);
  }

  lemma ExampleListed()
    ensures LigaturesListed(LIGATURE_FONT)
  {
    forall g: nat, entry, x | IsSubstitution(LIGATURE_FONT, g, entry) && entry.ligature.Some? && x in entry.ligature.value
      ensures LigatureAt(LIGATURE_FONT, g, entry, x)
    {
      assert g == 1 || g == 2;
      var other := if g == 1 then FROM_I else FROM_F;
      assert other == entry.(ligature := Some({g}));
      assert IsSubstitution(LIGATURE_FONT, x, entry.(ligature := Some({g})));
      assert {g} + {x} == entry.ligature.value + {g};
    }
  }

  lemma ExampleEdges()
    ensures var e, f := GsubEdge(1, FROM_F), GsubEdge(2, FROM_I);
            && e in EdgesAt(LIGATURE_FONT, Glyph(1)) && e !in EdgesAt(LIGATURE_FONT, Glyph(2))
            && f in EdgesAt(LIGATURE_FONT, Glyph(2)) && f !in EdgesAt(LIGATURE_FONT, Glyph(1))
  {
    hide GlyphEdges;
    var e, f := GsubEdge(1, FROM_F), GsubEdge(2, FROM_I);
    assert IsOwn(LIGATURE_FONT, 1, FROM_F, e) && IsOwn(LIGATURE_FONT, 2, FROM_I, f);
    GlyphMember(LIGATURE_FONT, 1, e);
    GlyphMember(LIGATURE_FONT, 2, e);
    GlyphMember(LIGATURE_FONT, 1, f);
    GlyphMember(LIGATURE_FONT, 2, f);
    assert e.edge.source == Glyph(1) && f.edge.source == Glyph(2);
    forall g: nat, entry | IsSubstitution(LIGATURE_FONT, g, entry) ensures entry.context.None? {
      assert g == 1 || g == 2;
    }
  }
}
