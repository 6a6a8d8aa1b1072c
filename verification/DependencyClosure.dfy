/** The cached conditions of all nodes, looked up by segment, and how merging segments updates them. */
module DependencyClosure {
  import opened Reachability
  import opened IntSets
  import opened SegmentGroups
  import opened ActivationConditions
  import opened NodeConditions
  import opened MergedConditions

  type Index = map<nat, set<Node>>

  ghost predicate Indexed(index: Index, s: nat, n: Node) {
    s in index && n in index[s]
  }

  ghost predicate Triggers(c: Conditions, s: nat, n: Node) {
    n in c && s in c[n].TriggeringSegments()
  }

  /** The index leads from each segment to exactly the nodes whose conditions mention it. */
  ghost predicate IndexExact(c: Conditions, index: Index) {
    forall s, n :: Indexed(index, s, n) <==> Triggers(c, s, n)
  }

  ghost predicate GlyphsExact(c: Conditions, glyphs: map<nat, ActivationCondition>, nonInit: set<nat>) {
    && (forall g :: g in glyphs <==> g in nonInit && Glyph(g) in c)
    && forall g :: g in glyphs && Glyph(g) in c ==> glyphs[g] == c[Glyph(g)]
  }

  /** An inert segment only occurs on its own in the conditions of glyphs. */
  ghost predicate OnlyAlone(glyphs: map<nat, ActivationCondition>, s: nat) {
    forall g :: g in glyphs && s in glyphs[g].TriggeringSegments() ==> glyphs[g].IsUnitary()
  }

  ghost predicate InertSound(glyphs: map<nat, ActivationCondition>, inert: set<nat>) {
    forall s :: s in inert ==> OnlyAlone(glyphs, s)
  }

  /** The nodes before n were replaced, the others are as before. */
  ghost predicate PartlyMerged(before: Conditions, now: Conditions, done: set<Node>, base: nat, segments: set<nat>) {
    && before.Keys == now.Keys
    && (forall n :: n in now && n !in done ==> now[n] == before[n])
    && forall n :: n in now && n in done ==> ReplacedBy(before[n], now[n], base, segments)
  }

  ghost predicate ReplacedBy(c: ActivationCondition, d: ActivationCondition, base: nat, segments: set<nat>) {
    && d.Valid() && Simplified(Replaced(c.groups, base, segments), d.groups)
    && forall active :: d.HoldsFor(active) <==> c.HoldsFor(Renamed(active, base, segments))
  }

  /** A condition that none of the segments triggers means the same after the renaming. */
  lemma UntouchedIsMerged(c: ActivationCondition, base: nat, segments: set<nat>)
    requires forall s :: s in c.TriggeringSegments() ==> s !in segments
    ensures forall active :: c.HoldsFor(active) <==> c.HoldsFor(Renamed(active, base, segments))
  {
    forall active ensures c.HoldsFor(active) <==> c.HoldsFor(Renamed(active, base, segments)) {
      forall i | 0 <= i < |c.groups| ensures c.groups[i] * active == c.groups[i] * Renamed(active, base, segments) {
        assert c.groups[i] in c.groups;
        assert forall x :: x in c.groups[i] ==> x in c.TriggeringSegments();
        assert forall x :: x in c.groups[i] ==> x !in segments;
      }
    }
  }

  lemma AllMerged(before: Conditions, after: Conditions, base: nat, segments: set<nat>)
    requires AllValid(before) && PartlyMerged(before, after, Mentioning(before, segments), base, segments)
    ensures MergedFrom(before, after, base, segments)
  {
    hide Holds, Renamed, Replaced, Canonical, Minimal;
    forall n | n in after ensures after[n].Valid() && forall active :: after[n].HoldsFor(active) <==> before[n].HoldsFor(Renamed(active, base, segments)) {
      if n !in Mentioning(before, segments) {
        assert after[n] == before[n];
        NotMentioned(before, n, segments);
        UntouchedIsMerged(before[n], base, segments);
      } else {
        assert ReplacedBy(before[n], after[n], base, segments);
      }
    }
  }

  /** The segments of a renamed condition. */
  lemma ReplacedSegments(c: ActivationCondition, d: ActivationCondition, base: nat, segments: set<nat>, s: nat)
    requires ReplacedBy(c, d, base, segments) && s in d.TriggeringSegments()
    ensures s == base || (s in c.TriggeringSegments() && s !in segments)
  {
    hide Canonical, Holds, Renamed;
    var g :| g in d.groups && s in g;
    assert Minimal(Replaced(c.groups, base, segments), g);
    var i :| 0 <= i < |c.groups| && Replaced(c.groups, base, segments)[i] == g;
    assert g == ReplaceIn(c.groups[i], base, segments);
    assert c.groups[i] in c.groups;
  }

  class DependencyClosure {
    const nonInitFontGlyphs: set<nat>
    var nodeConditionCache: Conditions
    var nodeConditionsWithSegment: Index
    var glyphConditionCache: map<nat, ActivationCondition>
    var inertSegments: set<nat>

    ghost predicate Valid()
      reads this
    {
      && AllValid(nodeConditionCache)
      && IndexExact(nodeConditionCache, nodeConditionsWithSegment)
      && GlyphsExact(nodeConditionCache, glyphConditionCache, nonInitFontGlyphs)
    }

    /** Sets up the lookups for conditions that propagation has found. */
    constructor (conditions: Conditions, nonInitFontGlyphs: set<nat>, nonEmptySegments: set<nat>)
      requires AllValid(conditions)
      ensures Valid() && nodeConditionCache == conditions && this.nonInitFontGlyphs == nonInitFontGlyphs
      ensures forall s :: s in inertSegments <==> s in nonEmptySegments && OnlyAlone(glyphConditionCache, s)
    {
      this.nonInitFontGlyphs := nonInitFontGlyphs;
      nodeConditionCache, nodeConditionsWithSegment, glyphConditionCache := conditions, map[], map[];
      inertSegments := {};
      new;
      BuildLookups();
      var inert := ComputeInertSegments(nonEmptySegments);
      inertSegments := inert;
    }

    /** Fills the lookups from the conditions of all nodes. */
    method BuildLookups()
      requires AllValid(nodeConditionCache) && nodeConditionsWithSegment == map[] && glyphConditionCache == map[]
      modifies `nodeConditionsWithSegment, `glyphConditionCache
      ensures Valid()
    {
      hide Indexed, Triggers, OnlyAlone, GlyphsExact, IndexExact, AllValid;
      NothingIndexed();
      NoGlyphs(nonInitFontGlyphs);
      var rest := nodeConditionCache.Keys;
      ghost var seen: Conditions := map[];
      while rest != {}
        invariant rest <= nodeConditionCache.Keys
        invariant seen == map n | n in nodeConditionCache && n !in rest :: nodeConditionCache[n]
        invariant IndexExact(seen, nodeConditionsWithSegment) && GlyphsExact(seen, glyphConditionCache, nonInitFontGlyphs)
        decreases |rest|
      {
        var n :| n in rest;
        ghost var before := nodeConditionsWithSegment;
        AddToIndex(n, nodeConditionCache[n].TriggeringSegments());
        IndexedOneMore(seen, before, nodeConditionsWithSegment, n, nodeConditionCache[n]);
        GlyphOneMore(seen, glyphConditionCache, nonInitFontGlyphs, n, nodeConditionCache[n]);
        if n.Glyph? && n.id in nonInitFontGlyphs {
          glyphConditionCache := glyphConditionCache[n.id := nodeConditionCache[n]];
        }
        seen := seen[n := nodeConditionCache[n]];
        rest := rest - {n};
      }
      assert seen == nodeConditionCache;
    }

    /** The segments that no condition of a glyph combines with others. */
    method ComputeInertSegments(nonEmptySegments: set<nat>) returns (candidates: set<nat>)
      ensures forall s :: s in candidates <==> s in nonEmptySegments && OnlyAlone(glyphConditionCache, s)
    {
      hide OnlyAlone;
      forall s ensures OnlyAlone(glyphConditionCache - glyphConditionCache.Keys, s) {
        NothingAlone(glyphConditionCache - glyphConditionCache.Keys, s);
      }
      candidates := nonEmptySegments;
      var rest := glyphConditionCache.Keys;
      while rest != {}
        invariant rest <= glyphConditionCache.Keys
        invariant forall s :: s in candidates <==> s in nonEmptySegments && OnlyAlone(glyphConditionCache - rest, s)
        decreases |rest|
      {
        var g :| g in rest;
        forall s ensures OnlyAlone(glyphConditionCache - (rest - {g}), s) <==>
                         OnlyAlone(glyphConditionCache - rest, s) && (s in glyphConditionCache[g].TriggeringSegments() ==> glyphConditionCache[g].IsUnitary())
        {
          AloneOneMore(glyphConditionCache, rest, g, s);
        }
        if !glyphConditionCache[g].IsUnitary() {
          candidates := candidates - glyphConditionCache[g].TriggeringSegments();
        }
        rest := rest - {g};
      }
      assert glyphConditionCache - rest == glyphConditionCache;
    }

    method AddToIndex(node: Node, segments: set<nat>)
      modifies `nodeConditionsWithSegment
      ensures forall s, n :: Indexed(nodeConditionsWithSegment, s, n) <==> Indexed(old(nodeConditionsWithSegment), s, n) || (n == node && s in segments)
    {
      hide Indexed;
      var rest := segments;
      while rest != {}
        invariant rest <= segments
        invariant forall s, n :: Indexed(nodeConditionsWithSegment, s, n) <==>
                                 Indexed(old(nodeConditionsWithSegment), s, n) || (n == node && s in segments - rest)
        decreases |rest|
      {
        var s :| s in rest;
        var known := if s in nodeConditionsWithSegment then nodeConditionsWithSegment[s] else {};
        IndexedPut(nodeConditionsWithSegment, s, node);
        nodeConditionsWithSegment := nodeConditionsWithSegment[s := known + {node}];
        rest := rest - {s};
      }
    }

    method RemoveFromIndex(node: Node, segments: set<nat>)
      modifies `nodeConditionsWithSegment
      ensures forall s, n :: Indexed(nodeConditionsWithSegment, s, n) <==> Indexed(old(nodeConditionsWithSegment), s, n) && !(n == node && s in segments)
    {
      hide Indexed;
      var rest := segments;
      while rest != {}
        invariant rest <= segments
        invariant forall s, n :: Indexed(nodeConditionsWithSegment, s, n) <==>
                                 Indexed(old(nodeConditionsWithSegment), s, n) && !(n == node && s in segments - rest)
        decreases |rest|
      {
        var s :| s in rest;
        IndexedCut(nodeConditionsWithSegment, s, node);
        if s in nodeConditionsWithSegment {
          nodeConditionsWithSegment := nodeConditionsWithSegment[s := nodeConditionsWithSegment[s] - {node}];
        }
        rest := rest - {s};
      }
    }

    /** All nodes whose conditions mention one of the segments. */
    method SegmentsToAffectedNodeConditions(segments: set<nat>) returns (nodes: set<Node>)
      ensures forall n :: n in nodes <==> exists s :: s in segments && Indexed(nodeConditionsWithSegment, s, n)
    {
      var v := ToVector(segments);
      nodes := {};
      for i := 0 to |v|
        invariant forall n :: n in nodes <==> exists k :: 0 <= k < i && Indexed(nodeConditionsWithSegment, v[k], n)
      {
        if v[i] in nodeConditionsWithSegment {
          nodes := nodes + nodeConditionsWithSegment[v[i]];
        }
        assert forall n :: Indexed(nodeConditionsWithSegment, v[i], n) <==> v[i] in nodeConditionsWithSegment && n in nodeConditionsWithSegment[v[i]];
      }
      forall n ensures n in nodes <==> exists s :: s in segments && Indexed(nodeConditionsWithSegment, s, n) {
        if s :| s in segments && Indexed(nodeConditionsWithSegment, s, n) {
          assert s in v;
          var k :| 0 <= k < |v| && v[k] == s;
        }
        if n in nodes {
          var k :| 0 <= k < |v| && Indexed(nodeConditionsWithSegment, v[k], n);
          assert v[k] in v;
        }
      }
    }

    /** Replaces the segments in one node's condition, in the index and in the cache of glyph conditions. */
    method UpdateNodeCondition(node: Node, base: nat, segments: set<nat>) returns (unitary: bool)
      requires Valid() && node in nodeConditionCache
      modifies `nodeConditionCache, `nodeConditionsWithSegment, `glyphConditionCache
      ensures Valid() && nodeConditionCache.Keys == old(nodeConditionCache).Keys
      ensures forall n :: n in nodeConditionCache && n != node ==> nodeConditionCache[n] == old(nodeConditionCache)[n]
      ensures ReplacedBy(old(nodeConditionCache)[node], nodeConditionCache[node], base, segments)
      ensures unitary == nodeConditionCache[node].IsUnitary()
    {
      hide Indexed, Triggers, Replaced, Canonical, Minimal, Holds, Renamed, GlyphsExact, Simplified;
      ghost var cache, index, glyphs := nodeConditionCache, nodeConditionsWithSegment, glyphConditionCache;
      var condition := nodeConditionCache[node];
      RemoveFromIndex(node, condition.TriggeringSegments());
      ghost var removed := nodeConditionsWithSegment;
      var newCondition := ReplaceSegments(condition, base, segments);
      nodeConditionCache := nodeConditionCache[node := newCondition];
      if node.Glyph? && node.id in nonInitFontGlyphs {
        glyphConditionCache := glyphConditionCache[node.id := newCondition];
      }
      unitary := newCondition.IsUnitary();
      AddToIndex(node, newCondition.TriggeringSegments());
      IndexMoved(cache, index, removed, nodeConditionsWithSegment, node, newCondition);
      GlyphsMoved(cache, glyphs, nonInitFontGlyphs, node, newCondition);
    }

    /** Replaces the segments in the conditions of all affected nodes. */
    method UpdateAffected(affected: set<Node>, base: nat, segments: set<nat>) returns (baseIsInert: bool)
      requires Valid()
      modifies `nodeConditionCache, `nodeConditionsWithSegment, `glyphConditionCache
      ensures Valid() && PartlyMerged(old(nodeConditionCache), nodeConditionCache, affected, base, segments)
      ensures baseIsInert <==> AllUnitary(nodeConditionCache, affected)
    {
      hide Indexed, Triggers, ReplacedBy, Canonical, GlyphsExact, IndexExact;
      var rest := affected;
      baseIsInert := true;
      while rest != {}
        invariant Valid() && rest <= affected
        invariant PartlyMerged(old(nodeConditionCache), nodeConditionCache, affected - rest, base, segments)
        invariant baseIsInert <==> AllUnitary(nodeConditionCache, affected - rest)
        decreases |rest|
      {
        var node :| node in rest;
        rest := rest - {node};
        assert affected - rest == (affected - rest - {node}) + {node};
        if node !in nodeConditionCache {
          continue;
        }
        var unitary := UpdateNodeCondition(node, base, segments);
        if !unitary {
          baseIsInert := false;
        }
      }
      assert affected - rest == affected;
    }

    /** Merging segments into a base segment renames them in every condition; the lookups stay exact. */
    method UpdateNodeConditionsCache(base: nat, segments: set<nat>)
      requires Valid()
      modifies this
      ensures Valid()
      ensures MergedFrom(old(nodeConditionCache), nodeConditionCache, base, segments)
      ensures forall s :: s != base ==> (s in inertSegments <==> s in old(inertSegments) && s !in segments)
      ensures base in inertSegments <==> AllUnitary(nodeConditionCache, Mentioning(old(nodeConditionCache), segments))
      ensures base in segments && InertSound(old(glyphConditionCache), old(inertSegments)) ==> InertSound(glyphConditionCache, inertSegments)
    {
      hide Indexed, Triggers, PartlyMerged, MergedFrom, GlyphsExact, InertSound, AllUnitary, AllValid;
      ghost var before, glyphs := nodeConditionCache, glyphConditionCache;
      var affected := SegmentsToAffectedNodeConditions(segments);
      AffectedAreMentioning(before, nodeConditionsWithSegment, segments, affected);
      hide IndexExact, Mentioning;
      var baseIsInert := UpdateAffected(affected, base, segments);
      AllMerged(before, nodeConditionCache, base, segments);
      if base in segments && InertSound(glyphs, inertSegments) {
        InertStaysSound(before, nodeConditionCache, base, segments, glyphs, glyphConditionCache, nonInitFontGlyphs, inertSegments);
      }
      inertSegments := inertSegments - segments;
      if baseIsInert {
        inertSegments := inertSegments + {base};
      } else {
        inertSegments := inertSegments - {base};
      }
    }
  }

  ghost predicate AllUnitary(c: Conditions, nodes: set<Node>) {
    forall n :: n in nodes && n in c ==> c[n].IsUnitary()
  }

  /** The nodes whose conditions mention one of the segments. */
  ghost function Mentioning(c: Conditions, segments: set<nat>): set<Node> {
    set n | n in c && c[n].TriggeringSegments() * segments != {}
  }

  lemma NotMentioned(c: Conditions, n: Node, segments: set<nat>)
    requires n in c && n !in Mentioning(c, segments)
    ensures forall s :: s in c[n].TriggeringSegments() ==> s !in segments
  {
    MentioningMember(c, n, segments);
    forall s | s in c[n].TriggeringSegments() ensures s !in segments {
      assert s in segments <==> s in c[n].TriggeringSegments() * segments;
    }
  }

  lemma MentioningMember(c: Conditions, n: Node, segments: set<nat>)
    requires n in c
    ensures n in Mentioning(c, segments) <==> c[n].TriggeringSegments() * segments != {}
  {
  }

  lemma AffectedAreMentioning(c: Conditions, index: Index, segments: set<nat>, affected: set<Node>)
    requires IndexExact(c, index)
    requires forall n :: n in affected <==> exists s :: s in segments && Indexed(index, s, n)
    ensures affected == Mentioning(c, segments)
  {
    hide Indexed;
    forall n ensures n in affected <==> n in Mentioning(c, segments) {
      if n in affected {
        var s :| s in segments && Indexed(index, s, n);
        assert Triggers(c, s, n);
        assert s in c[n].TriggeringSegments() * segments;
      }
      if n in Mentioning(c, segments) {
        var s :| s in c[n].TriggeringSegments() * segments;
        assert Triggers(c, s, n);
        assert Indexed(index, s, n);
      }
    }
  }

  lemma IndexedPut(index: Index, s: nat, node: Node)
    ensures var known := if s in index then index[s] else {};
            forall t, n :: Indexed(index[s := known + {node}], t, n) <==> Indexed(index, t, n) || (n == node && t == s)
  {
    var known := if s in index then index[s] else {};
    var more := index[s := known + {node}];
    forall t, n ensures Indexed(more, t, n) <==> Indexed(index, t, n) || (n == node && t == s) {
      assert t in more <==> t in index || t == s;
    }
  }

  lemma IndexedCut(index: Index, s: nat, node: Node)
    ensures s in index ==> forall t, n :: Indexed(index[s := index[s] - {node}], t, n) <==> Indexed(index, t, n) && !(n == node && t == s)
    ensures s !in index ==> forall n :: !Indexed(index, s, n)
  {
    if s in index {
      var less := index[s := index[s] - {node}];
      forall t, n ensures Indexed(less, t, n) <==> Indexed(index, t, n) && !(n == node && t == s) {
        assert t in less <==> t in index;
      }
    }
  }

  lemma NothingAlone(glyphs: map<nat, ActivationCondition>, s: nat)
    requires glyphs.Keys == {}
    ensures OnlyAlone(glyphs, s)
  {
  }

  lemma AloneOneMore(glyphs: map<nat, ActivationCondition>, rest: set<nat>, g: nat, s: nat)
    requires g in rest && rest <= glyphs.Keys
    ensures OnlyAlone(glyphs - (rest - {g}), s) <==>
            OnlyAlone(glyphs - rest, s) && (s in glyphs[g].TriggeringSegments() ==> glyphs[g].IsUnitary())
  {
    var less, more := glyphs - rest, glyphs - (rest - {g});
    assert more == less[g := glyphs[g]] && g !in less;
    if OnlyAlone(more, s) {
      assert forall h :: h in less ==> h in more && more[h] == less[h];
      assert g in more;
    }
  }

  lemma NoGlyphs(nonInit: set<nat>)
    ensures GlyphsExact(map[], map[], nonInit)
  {
  }

  lemma GlyphOneMore(c: Conditions, glyphs: map<nat, ActivationCondition>, nonInit: set<nat>, n: Node, condition: ActivationCondition)
    requires GlyphsExact(c, glyphs, nonInit) && n !in c
    ensures GlyphsExact(c[n := condition], if n.Glyph? && n.id in nonInit then glyphs[n.id := condition] else glyphs, nonInit)
  {
  }

  lemma NothingIndexed()
    ensures IndexExact(map[], map[])
  {
  }

  lemma IndexedOneMore(c: Conditions, index: Index, index': Index, n: Node, condition: ActivationCondition)
    requires IndexExact(c, index) && n !in c
    requires forall s, m :: Indexed(index', s, m) <==> Indexed(index, s, m) || (m == n && s in condition.TriggeringSegments())
    ensures IndexExact(c[n := condition], index')
  {
    hide Indexed;
    forall s, m ensures Indexed(index', s, m) <==> Triggers(c[n := condition], s, m) {
      assert Indexed(index, s, m) <==> Triggers(c, s, m);
    }
  }

  lemma GlyphsMoved(c: Conditions, glyphs: map<nat, ActivationCondition>, nonInit: set<nat>, n: Node, condition: ActivationCondition)
    requires GlyphsExact(c, glyphs, nonInit) && n in c
    ensures GlyphsExact(c[n := condition], if n.Glyph? && n.id in nonInit then glyphs[n.id := condition] else glyphs, nonInit)
  {
  }

  lemma IndexMoved(c: Conditions, index: Index, removed: Index, index': Index, n: Node, condition: ActivationCondition)
    requires IndexExact(c, index) && n in c
    requires forall s, m :: Indexed(removed, s, m) <==> Indexed(index, s, m) && !(m == n && s in c[n].TriggeringSegments())
    requires forall s, m :: Indexed(index', s, m) <==> Indexed(removed, s, m) || (m == n && s in condition.TriggeringSegments())
    ensures IndexExact(c[n := condition], index')
  {
    hide Indexed;
    forall s, m ensures Indexed(index', s, m) <==> Triggers(c[n := condition], s, m) {
      assert Indexed(index, s, m) <==> Triggers(c, s, m);
    }
  }

  /** Other inert segments are not in the affected conditions; the base is only said to be inert if it is. */
  lemma InertStaysSound(before: Conditions, after: Conditions, base: nat, segments: set<nat>,
                        glyphs: map<nat, ActivationCondition>, glyphs': map<nat, ActivationCondition>, nonInit: set<nat>, inert: set<nat>)
    requires PartlyMerged(before, after, Mentioning(before, segments), base, segments) && base in segments
    requires GlyphsExact(before, glyphs, nonInit) && GlyphsExact(after, glyphs', nonInit) && InertSound(glyphs, inert)
    ensures InertSound(glyphs', inert - segments - {base})
    ensures AllUnitary(after, Mentioning(before, segments)) ==> InertSound(glyphs', inert - segments + {base})
  {
    hide ReplacedBy, Mentioning;
    forall g, s | g in glyphs' && s in glyphs'[g].TriggeringSegments()
      ensures s in inert && s !in segments && s != base ==> glyphs'[g].IsUnitary()
      ensures s == base ==> Glyph(g) in Mentioning(before, segments)
    {
      var n := Glyph(g);
      if s == base {
        BaseIsMentioned(before, after, base, segments, n);
      } else if s in inert && s !in segments {
        assert OnlyAlone(glyphs, s);
        if n in Mentioning(before, segments) {
          assert ReplacedBy(before[n], after[n], base, segments);
          ReplacedSegments(before[n], after[n], base, segments, s);
          UnitaryIsAlone(before, n, segments, s);
        }
      }
    }
  }

  lemma BaseIsMentioned(before: Conditions, after: Conditions, base: nat, segments: set<nat>, n: Node)
    requires PartlyMerged(before, after, Mentioning(before, segments), base, segments) && base in segments
    requires n in before && n in after && base in after[n].TriggeringSegments()
    ensures n in Mentioning(before, segments)
  {
    hide ReplacedBy;
    MentioningMember(before, n, segments);
    assert after[n] == before[n] || n in Mentioning(before, segments);
    assert base in after[n].TriggeringSegments() * segments;
  }

  lemma UnitaryIsAlone(c: Conditions, n: Node, segments: set<nat>, s: nat)
    requires n in Mentioning(c, segments) && s in c[n].TriggeringSegments() && s !in segments
    ensures !c[n].IsUnitary()
  {
    var t :| t in c[n].TriggeringSegments() * segments;
    if c[n].IsUnitary() {
      var g := c[n].groups[0];
      assert s in g && t in g;
      SubsetSize({s, t}, g);
    }
  }
}
