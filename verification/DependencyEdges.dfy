/** The edges of the dependency graph, as they are read from a font and from the segments, and what they need. */
module DependencyEdges {
  import opened Wrappers
  import opened IntSets
  import opened Reachability
  import opened NodeConditions
  import opened TraversalState
  import opened SymbolicTraversal

  /** The tag of a table or a feature: four letters in one number. */
  function Tag(name: string): nat
    requires |name| == 4
  {
    ((name[0] as nat * 256 + name[1] as nat) * 256 + name[2] as nat) * 256 + name[3] as nat
  }

  const CMAP: nat := Tag("cmap")
  const GSUB: nat := Tag("GSUB")

  /** No feature has this tag. */
  const NO_TAG: nat := 0xFFFF_FFFF

  /** One dependency of a glyph; the glyph sets that the library refers to by index are given directly. */
  datatype GlyphEntry = GlyphEntry(table: nat, dest: nat, feature: nat, ligature: Option<set<nat>>, context: Option<seq<set<nat>>>)

  /** A glyph dependency of the substitution table, together with the glyph that has it. */
  datatype LayoutEdge = LayoutEdge(source: nat, entry: GlyphEntry)

  datatype Definition = Definition(codepoints: set<nat>, features: set<nat>)

  /** What the edges are made from. Variation sequences are (base, selector, glyph), compositions (first, second, composed). */
  datatype FontData = FontData(
    entries: seq<seq<GlyphEntry>>, glyphOf: map<nat, nat>, variations: seq<(nat, nat, nat)>, compositions: seq<(nat, nat, nat)>,
    decompositions: map<nat, set<nat>>, mirrors: map<nat, nat>, segments: seq<Definition>, initial: Definition)

  // ---------- lists of edges ----------

  function Each<T, U>(s: seq<T>, f: T -> seq<U>): seq<U> {
    if s == [] then [] else f(s[0]) + Each(s[1..], f)
  }

  lemma {:induction false} EachMember<T, U>(s: seq<T>, f: T -> seq<U>, u: U)
    ensures u in Each(s, f) <==> exists t :: t in s && u in f(t)
  {
    if s != [] {
      assert s == [s[0]] + s[1..];
      EachMember(s[1..], f, u);
    }
  }

  // ---------- edges of glyphs and features ----------

  /** A substitution: with a context, or else as part of a ligature, or on its own. It needs the feature of its lookup. */
  function GsubEdge(source: nat, entry: GlyphEntry): OutEdge {
    Conjunctive(PendingEdge(
      Glyph(source), Glyph(entry.dest), GSUB, Some(entry.feature),
      if entry.context.Some? then None else entry.ligature, entry.context, None))
  }

  function EntryEdge(source: nat, entry: GlyphEntry): OutEdge {
    if entry.table == GSUB then GsubEdge(source, entry) else Direct(Glyph(entry.dest), Some(entry.table))
  }

  function GlyphLayoutEdges(source: nat, entries: seq<GlyphEntry>): seq<LayoutEdge> {
    Each(entries, (entry: GlyphEntry) => if entry.table == GSUB && entry.feature != NO_TAG then [LayoutEdge(source, entry)] else [])
  }

  /** The substitutions of the glyphs from `first` on. */
  function LayoutEdgesFrom(entries: seq<seq<GlyphEntry>>, first: nat): seq<LayoutEdge>
    decreases |entries| - first
  {
    if first >= |entries| then [] else GlyphLayoutEdges(first, entries[first]) + LayoutEdgesFrom(entries, first + 1)
  }

  predicate InContext(entry: GlyphEntry, glyph: nat) {
    entry.context.Some? && exists i :: 0 <= i < |entry.context.value| && glyph in entry.context.value[i]
  }

  /** The substitutions that a feature turns on are listed at the feature. */
  function FeatureEdges(font: FontData, feature: nat): seq<OutEdge> {
    Each(LayoutEdgesFrom(font.entries, 0), (l: LayoutEdge) => if l.entry.feature == feature then [GsubEdge(l.source, l.entry)] else [])
  }

  /** The substitutions that a glyph is the context of are listed at that glyph. */
  function ContextEdges(font: FontData, glyph: nat): seq<OutEdge> {
    Each(LayoutEdgesFrom(font.entries, 0), (l: LayoutEdge) => if InContext(l.entry, glyph) then [GsubEdge(l.source, l.entry)] else [])
  }

  function GlyphEdges(font: FontData, glyph: nat): seq<OutEdge> {
    (if glyph < |font.entries| then Each(font.entries[glyph], (entry: GlyphEntry) => [EntryEdge(glyph, entry)]) else [])
    + ContextEdges(font, glyph)
  }

  // ---------- edges of code points ----------

  function UvsEdge(a: nat, b: nat, glyph: nat): OutEdge {
    Conjunctive(PendingEdge(Unicode(a), Glyph(glyph), CMAP, None, None, None, Some((a, b))))
  }

  function CompositionEdge(a: nat, b: nat, dest: nat): OutEdge {
    Conjunctive(PendingEdge(Unicode(a), Unicode(dest), CMAP, None, None, None, Some((a, b))))
  }

  /** Each variation sequence is listed at its base and at its selector. */
  function VariationEdges(font: FontData, u: nat): seq<OutEdge> {
    Each(font.variations, (v: (nat, nat, nat)) =>
      (if v.0 == u then [UvsEdge(u, v.1, v.2)] else []) + (if v.1 == u then [UvsEdge(u, v.0, v.2)] else []))
  }

  /** Each composition is listed at both of its parts. */
  function CompositionEdges(font: FontData, u: nat): seq<OutEdge> {
    Each(font.compositions, (v: (nat, nat, nat)) =>
      (if v.0 == u then [CompositionEdge(u, v.1, v.2)] else []) + (if v.1 == u then [CompositionEdge(u, v.0, v.2)] else []))
  }

  function UnicodeEdges(font: FontData, u: nat): seq<OutEdge> {
    (if u in font.glyphOf then [Direct(Glyph(font.glyphOf[u]), None)] else [])
    + VariationEdges(font, u)
    + CompositionEdges(font, u)
    + (if u in font.decompositions then Each(ToVector(font.decompositions[u]), (d: nat) => [Direct(Unicode(d), Some(CMAP))]) else [])
    + (if u in font.mirrors && font.mirrors[u] != u then [Direct(Unicode(font.mirrors[u]), None)] else [])
  }

  function DefinitionEdges(d: Definition): seq<OutEdge> {
    Each(ToVector(d.codepoints), (u: nat) => [Direct(Unicode(u), None)]) + Each(ToVector(d.features), (f: nat) => [Direct(Feature(f), None)])
  }

  /** HandleOutgoingEdges. */
  function EdgesAt(font: FontData, n: Node): seq<OutEdge> {
    match n
    case Glyph(g) => GlyphEdges(font, g)
    case Unicode(u) => UnicodeEdges(font, u)
    case Segment(s) => if s < |font.segments| then DefinitionEdges(font.segments[s]) else []
    case Feature(f) => FeatureEdges(font, f)
    case InitFont => DefinitionEdges(font.initial)
  }

  function Outgoing(font: FontData): Node -> seq<OutEdge> {
    (n: Node) => EdgesAt(font, n)
  }

  // ---------- which edges there are ----------

  ghost predicate IsSubstitution(font: FontData, source: nat, entry: GlyphEntry) {
    source < |font.entries| && entry in font.entries[source] && entry.table == GSUB
  }

  lemma GlyphLayoutMember(source: nat, entries: seq<GlyphEntry>, l: LayoutEdge)
    ensures l in GlyphLayoutEdges(source, entries) <==>
              l.source == source && l.entry in entries && l.entry.table == GSUB && l.entry.feature != NO_TAG
  {
    EachMember(entries, (entry: GlyphEntry) => if entry.table == GSUB && entry.feature != NO_TAG then [LayoutEdge(source, entry)] else [], l);
  }

  lemma {:induction false} LayoutMember(entries: seq<seq<GlyphEntry>>, first: nat, l: LayoutEdge)
    ensures l in LayoutEdgesFrom(entries, first) <==>
              first <= l.source < |entries| && l.entry in entries[l.source] && l.entry.table == GSUB && l.entry.feature != NO_TAG
    decreases |entries| - first
  {
    if first < |entries| {
      GlyphLayoutMember(first, entries[first], l);
      LayoutMember(entries, first + 1, l);
    }
  }

  /** A substitution of some glyph, with a feature. */
  ghost predicate IsFeatured(font: FontData, source: nat, entry: GlyphEntry, e: OutEdge) {
    IsSubstitution(font, source, entry) && entry.feature != NO_TAG && e == GsubEdge(source, entry)
  }

  lemma FeatureMember(font: FontData, feature: nat, e: OutEdge)
    ensures e in FeatureEdges(font, feature) <==> exists s: nat, entry :: IsFeatured(font, s, entry, e) && entry.feature == feature
  {
    var all, f := LayoutEdgesFrom(font.entries, 0), (l: LayoutEdge) => if l.entry.feature == feature then [GsubEdge(l.source, l.entry)] else [];
    EachMember(all, f, e);
    forall l: LayoutEdge ensures l in all <==> IsFeatured(font, l.source, l.entry, GsubEdge(l.source, l.entry)) {
      LayoutMember(font.entries, 0, l);
    }
    if s: nat, entry :| IsFeatured(font, s, entry, e) && entry.feature == feature {
      assert LayoutEdge(s, entry) in all && e in f(LayoutEdge(s, entry));
    }
  }

  lemma ContextMember(font: FontData, glyph: nat, e: OutEdge)
    ensures e in ContextEdges(font, glyph) <==> exists s: nat, entry :: IsFeatured(font, s, entry, e) && InContext(entry, glyph)
  {
    hide InContext;
    var all, f := LayoutEdgesFrom(font.entries, 0), (l: LayoutEdge) => if InContext(l.entry, glyph) then [GsubEdge(l.source, l.entry)] else [];
    EachMember(all, f, e);
    forall l: LayoutEdge ensures l in all <==> IsFeatured(font, l.source, l.entry, GsubEdge(l.source, l.entry)) {
      LayoutMember(font.entries, 0, l);
    }
    if s: nat, entry :| IsFeatured(font, s, entry, e) && InContext(entry, glyph) {
      assert LayoutEdge(s, entry) in all && e in f(LayoutEdge(s, entry));
    }
  }

  /** A dependency in the glyph's own list. */
  ghost predicate IsOwn(font: FontData, glyph: nat, entry: GlyphEntry, e: OutEdge) {
    glyph < |font.entries| && entry in font.entries[glyph] && e == EntryEdge(glyph, entry)
  }

  lemma GlyphMember(font: FontData, glyph: nat, e: OutEdge)
    ensures e in GlyphEdges(font, glyph) <==>
              || (exists entry :: IsOwn(font, glyph, entry, e))
              || (exists s: nat, entry :: IsFeatured(font, s, entry, e) && InContext(entry, glyph))
  {
    hide InContext, EntryEdge, GsubEdge;
    ContextMember(font, glyph, e);
    if glyph < |font.entries| {
      var f := (entry: GlyphEntry) => [EntryEdge(glyph, entry)];
      EachMember(font.entries[glyph], f, e);
      assert e in Each(font.entries[glyph], f) <==> exists entry :: IsOwn(font, glyph, entry, e) by {
        if entry :| IsOwn(font, glyph, entry, e) {
          assert e in f(entry);
        }
        if entry :| entry in font.entries[glyph] && e in f(entry) {
          assert IsOwn(font, glyph, entry, e);
        }
      }
    }
  }

  lemma VariationMember(font: FontData, u: nat, e: OutEdge)
    ensures e in VariationEdges(font, u) <==>
              exists v :: v in font.variations && ((v.0 == u && e == UvsEdge(u, v.1, v.2)) || (v.1 == u && e == UvsEdge(u, v.0, v.2)))
  {
    EachMember(font.variations, (v: (nat, nat, nat)) =>
      (if v.0 == u then [UvsEdge(u, v.1, v.2)] else []) + (if v.1 == u then [UvsEdge(u, v.0, v.2)] else []), e);
  }

  lemma CompositionMember(font: FontData, u: nat, e: OutEdge)
    ensures e in CompositionEdges(font, u) <==>
              exists v :: v in font.compositions && ((v.0 == u && e == CompositionEdge(u, v.1, v.2)) || (v.1 == u && e == CompositionEdge(u, v.0, v.2)))
  {
    EachMember(font.compositions, (v: (nat, nat, nat)) =>
      (if v.0 == u then [CompositionEdge(u, v.1, v.2)] else []) + (if v.1 == u then [CompositionEdge(u, v.0, v.2)] else []), e);
  }

  /** A conjunctive edge of a code point is a variation sequence or a composition. */
  ghost predicate IsPair(font: FontData, u: nat, e: OutEdge) {
    e in VariationEdges(font, u) || e in CompositionEdges(font, u)
  }

  /** Exactly the code points and the features of a definition are what its node leads to. */
  lemma DefinitionMember(d: Definition, e: OutEdge)
    ensures e in DefinitionEdges(d) <==>
              || (exists u :: u in d.codepoints && e == Direct(Unicode(u), None))
              || (exists f :: f in d.features && e == Direct(Feature(f), None))
  {
    EachMember(ToVector(d.codepoints), (u: nat) => [Direct(Unicode(u), None)], e);
    EachMember(ToVector(d.features), (f: nat) => [Direct(Feature(f), None)], e);
  }

  lemma DirectOnly(font: FontData, n: Node, e: OutEdge)
    requires e in EdgesAt(font, n) && (n.Segment? || n.InitFont?)
    ensures e.Direct? && (e.to.Unicode? || e.to.Feature?)
  {
    var d := if n.InitFont? then font.initial else font.segments[n.id];
    DefinitionMember(d, e);
  }

  lemma DecompositionMember(font: FontData, u: nat, e: OutEdge)
    requires u in font.decompositions
    ensures e in Each(ToVector(font.decompositions[u]), (d: nat) => [Direct(Unicode(d), Some(CMAP))]) <==>
              exists d :: d in font.decompositions[u] && e == Direct(Unicode(d), Some(CMAP))
  {
    EachMember(ToVector(font.decompositions[u]), (d: nat) => [Direct(Unicode(d), Some(CMAP))], e);
  }

  /** A code point leads to its glyph, to its decomposition and its mirror image, and is part of pairs; nowhere else. */
  lemma UnicodeEdgesAre(font: FontData, u: nat, e: OutEdge)
    ensures e in UnicodeEdges(font, u) <==>
              || (u in font.glyphOf && e == Direct(Glyph(font.glyphOf[u]), None))
              || IsPair(font, u, e)
              || (u in font.decompositions && exists d :: d in font.decompositions[u] && e == Direct(Unicode(d), Some(CMAP)))
              || (u in font.mirrors && font.mirrors[u] != u && e == Direct(Unicode(font.mirrors[u]), None))
  {
    hide VariationEdges, CompositionEdges, Each, ToVector;
    if u in font.decompositions {
      DecompositionMember(font, u, e);
    }
  }

  lemma UnicodeMember(font: FontData, u: nat, e: OutEdge)
    requires e in UnicodeEdges(font, u)
    ensures e.Direct? || IsPair(font, u, e)
    ensures e.Dest().Unicode? || e.Dest().Glyph?
  {
    hide VariationEdges, CompositionEdges, UnicodeEdges;
    UnicodeEdgesAre(font, u, e);
    VariationMember(font, u, e);
    CompositionMember(font, u, e);
  }

  /** A conjunctive edge is a substitution, or else a pair of code points listed at its own source. */
  lemma ConjunctiveKinds(font: FontData, n: Node, e: OutEdge)
    requires e in EdgesAt(font, n) && e.Conjunctive?
    ensures if n.Unicode? then IsPair(font, n.id, e) && e.edge.source == n
            else (n.Glyph? || n.Feature?) && exists s: nat, entry :: IsSubstitution(font, s, entry) && e == GsubEdge(s, entry)
  {
    hide GlyphEdges, FeatureEdges, VariationEdges, CompositionEdges, InContext;
    match n
    case Glyph(g) =>
      GlyphMember(font, g, e);
      if entry :| IsOwn(font, g, entry, e) {
        assert IsSubstitution(font, g, entry) && e == GsubEdge(g, entry);
      }
    case Unicode(u) =>
      UnicodeMember(font, u, e);
      VariationMember(font, u, e);
      CompositionMember(font, u, e);
    case Feature(f) =>
      FeatureMember(font, f, e);
    case Segment(_) => DirectOnly(font, n, e);
    case InitFont => DirectOnly(font, n, e);
  }

  // ---------- where the needs of an edge are listed ----------

  /** Each glyph of a ligature has an entry for it, with the other glyphs as what else it takes. */
  ghost predicate LigaturesListed(font: FontData) {
    forall g: nat, entry :: IsSubstitution(font, g, entry) && entry.context.None? && entry.ligature.Some? ==>
      forall x :: x in entry.ligature.value ==> LigatureAt(font, g, entry, x)
  }

  ghost predicate LigatureAt(font: FontData, g: nat, entry: GlyphEntry, x: nat)
    requires entry.ligature.Some?
  {
    exists l :: IsSubstitution(font, x, entry.(ligature := Some(l))) && l + {x} == entry.ligature.value + {g}
  }

  lemma {:induction false} ContextGroupMember(groups: seq<set<nat>>, k: nat, x: Node)
    requires k < |ContextGroups(groups)| && x in ContextGroups(groups)[k]
    ensures x.Glyph? && exists i :: 0 <= i < |groups| && x.id in groups[i]
  {
    hide ToVector, GlyphNodes;
    var first: Cnf := if groups[0] == {} then [] else [GlyphNodes(ToVector(groups[0]))];
    assert ContextGroups(groups) == first + ContextGroups(groups[1..]);
    if k < |first| {
      GroupMember(groups[0], x);
    } else {
      ContextGroupMember(groups[1..], k - |first|, x);
      var i :| 0 <= i < |groups[1..]| && x.id in groups[1..][i];
      assert groups[1..][i] == groups[i + 1];
    }
  }

  lemma GroupMember(group: set<nat>, x: Node)
    requires x in GlyphNodes(ToVector(group))
    ensures x.Glyph? && x.id in group
  {
    hide ToVector;
    var v := ToVector(group);
    GlyphNodeMember(v, x);
    assert x.id in v;
  }

  lemma GlyphNodeMember(v: seq<nat>, x: Node)
    requires x in GlyphNodes(v)
    ensures x.Glyph? && x.id in v
  {
    var i :| 0 <= i < |v| && GlyphNodes(v)[i] == x;
    assert x == Glyph(v[i]);
  }

  /** What a substitution needs: its glyph, its feature, the rest of its ligature, its context. */
  lemma SubstitutionNeeds(s: nat, entry: GlyphEntry, m: Node, x: Node)
    requires Needs(m, GsubEdge(s, entry), x)
    ensures || x == Glyph(s) || x == Feature(entry.feature)
            || (entry.context.None? && entry.ligature.Some? && x.Glyph? && x.id in entry.ligature.value)
            || (x.Glyph? && InContext(entry, x.id))
  {
    hide ContextGroups, EachGlyph, ToVector;
    var e := GsubEdge(s, entry).edge;
    var k :| 0 <= k < |ExtractRequirements(e)| && x in ExtractRequirements(e)[k];
    if k >= 2 {
      if entry.context.Some? {
        assert ExtractRequirements(e)[k] == ContextGroups(entry.context.value)[k - 2];
        ContextGroupMember(entry.context.value, k - 2, x);
      } else {
        assert entry.ligature.Some?;
        LigatureMember(entry.ligature.value, k - 2, x);
      }
    }
  }

  lemma LigatureMember(l: set<nat>, k: nat, x: Node)
    requires k < |EachGlyph(ToVector(l))| && x in EachGlyph(ToVector(l))[k]
    ensures x.Glyph? && x.id in l
  {
    assert ToVector(l)[k] in ToVector(l);
  }

  lemma PairNeeds(font: FontData, u: nat, e: OutEdge, m: Node, x: Node)
    requires IsPair(font, u, e) && Needs(m, e, x)
    ensures e.Conjunctive? && e.edge.requiredCodepoints.Some?
    ensures x.Unicode? && (x.id == e.edge.requiredCodepoints.value.0 || x.id == e.edge.requiredCodepoints.value.1)
  {
    hide VariationEdges, CompositionEdges;
    VariationMember(font, u, e);
    CompositionMember(font, u, e);
  }

  /** Edges from nodes are met alike if their constraints are satisfied alike. */
  lemma SatisfiedAlike(e: OutEdge, f: OutEdge)
    requires e.Conjunctive? && f.Conjunctive? && e.Dest() == f.Dest() && IsNode(e.edge.source) && IsNode(f.edge.source)
    requires NoEmptyContext(e.edge) && NoEmptyContext(f.edge)
    requires forall r :: ConstraintsSatisfied(e.edge, r) <==> ConstraintsSatisfied(f.edge, r)
    ensures SameNeeds(e, f)
  {
    hide ConstraintsSatisfied, ExtractRequirements, CnfMet, NoEmptyContext, SameReached;
    forall y ensures CnfMet(ExtractRequirements(e.edge), y) <==> CnfMet(ExtractRequirements(f.edge), y) {
      var r := ReachedOf(y);
      ReachedOfIsSame(y);
      RequirementsAgree(e.edge, y, r);
      RequirementsAgree(f.edge, y, r);
    }
  }

  lemma ReachedOfIsSame(y: set<Node>)
    ensures SameReached(y, ReachedOf(y))
  {
    var r := ReachedOf(y);
    forall u ensures u in r.unicodes <==> Unicode(u) in y {
      if Unicode(u) in y { assert Unicode(u).id == u; }
    }
    forall g ensures g in r.glyphs <==> Glyph(g) in y {
      if Glyph(g) in y { assert Glyph(g).id == g; }
    }
    forall f ensures f in r.features <==> Feature(f) in y {
      if Feature(f) in y { assert Feature(f).id == f; }
    }
  }

  /** The edge of a pair is listed at the other code point, too, with the two the other way round. */
  lemma PairListed(font: FontData, c: Config, u: nat, e: OutEdge, x: Node)
    requires c.outgoing == Outgoing(font) && IsPair(font, u, e) && Follows(c, e) && Needs(Unicode(u), e, x)
    ensures e.Conjunctive? && ListedFor(c, x, e)
  {
    hide VariationEdges, CompositionEdges, Needs, SameNeeds;
    PairNeeds(font, u, e, Unicode(u), x);
    VariationMember(font, u, e);
    CompositionMember(font, u, e);
    var p := e.edge.requiredCodepoints.value;
    var other := if p.0 == u then p.1 else p.0;
    var f := if x.id == u then e else Conjunctive(e.edge.(source := x, requiredCodepoints := Some((other, u))));
    assert p.0 == u;
    VariationMember(font, x.id, f);
    CompositionMember(font, x.id, f);
    assert f in EdgesAt(font, x);
    SatisfiedAlike(e, f);
  }

  /** A substitution is listed at whatever it needs. */
  lemma SubstitutionListed(font: FontData, c: Config, s: nat, entry: GlyphEntry, m: Node, x: Node)
    requires c.outgoing == Outgoing(font) && LigaturesListed(font) && IsSubstitution(font, s, entry) && entry.feature != NO_TAG
    requires (entry.context.None? ==> s in c.fullClosure) && Follows(c, GsubEdge(s, entry)) && Needs(m, GsubEdge(s, entry), x)
    ensures ListedFor(c, x, GsubEdge(s, entry))
  {
    hide Needs, SameNeeds, InContext, Each, LayoutEdgesFrom, GlyphEdges, FeatureEdges;
    var e := GsubEdge(s, entry);
    SubstitutionNeeds(s, entry, m, x);
    SameAsItself(e);
    if x == Feature(entry.feature) {
      FeatureMember(font, entry.feature, e);
      assert IsFeatured(font, s, entry, e);
      assert IsEdge(c, x, e);
    } else if x == Glyph(s) || InContext(entry, x.id) {
      GlyphMember(font, x.id, e);
      assert IsFeatured(font, s, entry, e);
      assert x == Glyph(s) ==> IsOwn(font, s, entry, e);
      assert IsEdge(c, x, e);
    } else {
      LigatureListed(font, c, s, entry, x.id);
    }
  }

  lemma SameAsItself(e: OutEdge)
    requires e.Conjunctive?
    ensures SameNeeds(e, e)
  {
  }

  lemma LigatureListed(font: FontData, c: Config, s: nat, entry: GlyphEntry, x: nat)
    requires c.outgoing == Outgoing(font) && LigaturesListed(font) && IsSubstitution(font, s, entry)
    requires entry.context.None? && entry.ligature.Some? && x in entry.ligature.value
    requires s in c.fullClosure && Follows(c, GsubEdge(s, entry))
    ensures ListedFor(c, Glyph(x), GsubEdge(s, entry))
  {
    hide SameNeeds, Each, LayoutEdgesFrom, GlyphEdges;
    assert LigatureAt(font, s, entry, x);
    var l :| IsSubstitution(font, x, entry.(ligature := Some(l))) && l + {x} == entry.ligature.value + {s};
    var other := entry.(ligature := Some(l));
    var f := GsubEdge(x, other);
    GlyphMember(font, x, f);
    assert IsOwn(font, x, other, f);
    assert IsEdge(c, Glyph(x), f);
    forall g | g in l ensures g in c.fullClosure {
      assert g in entry.ligature.value + {s};
    }
    SameLigature(s, entry, x, l);
  }

  /** Listed at any of its glyphs, a ligature needs the same. */
  lemma SameLigature(s: nat, entry: GlyphEntry, x: nat, l: set<nat>)
    requires entry.context.None? && entry.ligature.Some? && l + {x} == entry.ligature.value + {s}
    ensures SameNeeds(GsubEdge(s, entry), GsubEdge(x, entry.(ligature := Some(l))))
  {
    hide SameNeeds, Each;
    var e, f := GsubEdge(s, entry), GsubEdge(x, entry.(ligature := Some(l)));
    forall r ensures ConstraintsSatisfied(e.edge, r) <==> ConstraintsSatisfied(f.edge, r) {
      SameParts(entry.ligature.value, s, l, x, r.glyphs);
    }
    SatisfiedAlike(e, f);
  }

  lemma SameParts(a: set<nat>, s: nat, b: set<nat>, x: nat, glyphs: set<nat>)
    requires b + {x} == a + {s}
    ensures s in glyphs && a <= glyphs <==> x in glyphs && b <= glyphs
  {
    assert s in glyphs && a <= glyphs <==> a + {s} <= glyphs;
    assert x in glyphs && b <= glyphs <==> b + {x} <= glyphs;
  }
}
