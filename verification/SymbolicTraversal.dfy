/** The requirements of edges as groups of nodes, and why conditions and traversals agree. */
module SymbolicTraversal {
  import opened Wrappers
  import opened IntSets
  import opened Reachability
  import opened NodeConditions
  import opened TraversalState
  import ConditionPropagation

  function GlyphNodes(glyphs: seq<nat>): (r: seq<Node>)
    ensures |r| == |glyphs|
  {
    seq(|glyphs|, i requires 0 <= i < |glyphs| => Glyph(glyphs[i]))
  }

  function EachGlyph(glyphs: seq<nat>): (r: Cnf)
    ensures |r| == |glyphs|
  {
    seq(|glyphs|, i requires 0 <= i < |glyphs| => [Glyph(glyphs[i])])
  }

  /** One group for each context group that is not empty. */
  function ContextGroups(groups: seq<set<nat>>): Cnf {
    if groups == [] then []
    else (if groups[0] == {} then [] else [GlyphNodes(ToVector(groups[0]))]) + ContextGroups(groups[1..])
  }

  /** The nodes that an edge needs; sorting the groups and dropping repeated ones changes nothing. */
  function ExtractRequirements(e: PendingEdge): Cnf {
    [[e.source]]
    + (if e.requiredFeature.Some? then [[Feature(e.requiredFeature.value)]] else [])
    + (if e.requiredCodepoints.Some? then [[Unicode(e.requiredCodepoints.value.0)], [Unicode(e.requiredCodepoints.value.1)]] else [])
    + (if e.requiredLigature.Some? then EachGlyph(ToVector(e.requiredLigature.value)) else [])
    + (if e.requiredContext.Some? then ContextGroups(e.requiredContext.value) else [])
  }

  lemma CnfMetConcat(a: Cnf, b: Cnf, x: set<Node>)
    ensures CnfMet(a + b, x) <==> CnfMet(a, x) && CnfMet(b, x)
  {
    hide GroupMet;
    var c := a + b;
    if CnfMet(c, x) {
      assert forall i :: 0 <= i < |a| ==> a[i] == c[i];
      assert forall i :: 0 <= i < |b| ==> b[i] == c[|a| + i];
    }
  }

  lemma SingleMet(n: Node, x: set<Node>)
    ensures CnfMet([[n]], x) <==> n in x
  {
    assert GroupMet([n], x) <==> n in x;
    assert [[n]][0] == [n];
  }

  lemma GlyphNodesMet(s: set<nat>, x: set<Node>, glyphs: set<nat>)
    requires forall g :: g in glyphs <==> Glyph(g) in x
    ensures GroupMet(GlyphNodes(ToVector(s)), x) <==> s * glyphs != {}
  {
    var v := ToVector(s);
    if s * glyphs != {} {
      var g :| g in s * glyphs;
      assert g in v;
      var i :| 0 <= i < |v| && v[i] == g;
      assert GlyphNodes(v)[i] in GlyphNodes(v);
    }
    if GroupMet(GlyphNodes(v), x) {
      var m :| m in GlyphNodes(v) && m in x;
      var i :| 0 <= i < |v| && GlyphNodes(v)[i] == m;
      assert v[i] in v;
      assert v[i] in s * glyphs;
    }
  }

  lemma EachGlyphMet(s: set<nat>, x: set<Node>, glyphs: set<nat>)
    requires forall g :: g in glyphs <==> Glyph(g) in x
    ensures CnfMet(EachGlyph(ToVector(s)), x) <==> LigatureSatisfied(s, glyphs)
  {
    var v := ToVector(s);
    var cnf := EachGlyph(v);
    forall i | 0 <= i < |v| ensures GroupMet(cnf[i], x) <==> v[i] in glyphs {
      assert cnf[i] == [Glyph(v[i])];
      assert Glyph(v[i]) in [Glyph(v[i])];
    }
    if CnfMet(cnf, x) {
      forall g | g in s ensures g in glyphs {
        assert g in v;
        var i :| 0 <= i < |v| && v[i] == g;
        assert GroupMet(cnf[i], x);
      }
    }
    if s <= glyphs {
      forall i | 0 <= i < |v| ensures GroupMet(cnf[i], x) {
        assert v[i] in v;
      }
    }
  }

  ghost predicate NoEmptyGroup(groups: seq<set<nat>>) {
    forall i :: 0 <= i < |groups| ==> groups[i] != {}
  }

  lemma {:induction false} ContextGroupsMet(groups: seq<set<nat>>, x: set<Node>, glyphs: set<nat>)
    requires forall g :: g in glyphs <==> Glyph(g) in x
    ensures CnfMet(ContextGroups(groups), x) && NoEmptyGroup(groups) <==> ContextSatisfied(groups, glyphs)
  {
    hide CnfMet, GroupMet, NoEmptyGroup, ContextSatisfied, ToVector;
    if groups == [] {
      NoGroups(glyphs);
      EmptyMet(x);
    } else {
      var first: Cnf := if groups[0] == {} then [] else [GlyphNodes(ToVector(groups[0]))];
      ContextGroupsMet(groups[1..], x, glyphs);
      CnfMetConcat(first, ContextGroups(groups[1..]), x);
      OneGroupMet(groups[0], x, glyphs);
      FirstGroup(groups, glyphs);
    }
  }

  lemma NoGroups(glyphs: set<nat>)
    ensures NoEmptyGroup([]) && ContextSatisfied([], glyphs)
  {
  }

  lemma FirstGroup(groups: seq<set<nat>>, glyphs: set<nat>)
    requires groups != []
    ensures NoEmptyGroup(groups) <==> groups[0] != {} && NoEmptyGroup(groups[1..])
    ensures ContextSatisfied(groups, glyphs) <==> groups[0] * glyphs != {} && ContextSatisfied(groups[1..], glyphs)
  {
    assert groups == [groups[0]] + groups[1..];
  }

  lemma EmptyMet(x: set<Node>)
    ensures CnfMet([], x)
  {
  }

  lemma OneGroupMet(s: set<nat>, x: set<Node>, glyphs: set<nat>)
    requires forall g :: g in glyphs <==> Glyph(g) in x
    ensures s != {} ==> (CnfMet([GlyphNodes(ToVector(s))], x) <==> s * glyphs != {})
    ensures s == {} ==> CnfMet([], x) && s * glyphs == {}
  {
    GlyphNodesMet(s, x, glyphs);
    assert [GlyphNodes(ToVector(s))][0] == GlyphNodes(ToVector(s));
  }

  /** The nodes and what has been reached say the same. */
  ghost predicate SameReached(x: set<Node>, r: Reached) {
    && (forall u :: u in r.unicodes <==> Unicode(u) in x)
    && (forall g :: g in r.glyphs <==> Glyph(g) in x)
    && (forall f :: f in r.features <==> Feature(f) in x)
  }

  /** Every context group names a glyph. */
  ghost predicate NoEmptyContext(e: PendingEdge) {
    e.requiredContext.Some? ==> NoEmptyGroup(e.requiredContext.value)
  }

  /** A traversal finds an edge satisfied exactly when its groups are met; only an empty context group, which the groups
      leave out and which no traversal satisfies, makes a difference. */
  lemma RequirementsAgree(e: PendingEdge, x: set<Node>, r: Reached)
    requires SameReached(x, r) && (e.source.Segment? || e.source.InitFont? ==> e.source in x)
    ensures ConstraintsSatisfied(e, r) <==> CnfMet(ExtractRequirements(e), x) && NoEmptyContext(e)
  {
    hide CnfMet, GroupMet, ContextGroups, EachGlyph, ToVector, LigatureSatisfied, ContextSatisfied, NoEmptyGroup;
    var a: Cnf := [[e.source]];
    var b: Cnf := if e.requiredFeature.Some? then [[Feature(e.requiredFeature.value)]] else [];
    var c: Cnf := if e.requiredCodepoints.Some? then [[Unicode(e.requiredCodepoints.value.0)], [Unicode(e.requiredCodepoints.value.1)]] else [];
    var d: Cnf := if e.requiredLigature.Some? then EachGlyph(ToVector(e.requiredLigature.value)) else [];
    var f: Cnf := if e.requiredContext.Some? then ContextGroups(e.requiredContext.value) else [];
    FivePartsMet(a, b, c, d, f, x);
    EmptyMet(x);
    SingleMet(e.source, x);
    if e.requiredFeature.Some? {
      SingleMet(Feature(e.requiredFeature.value), x);
    }
    if e.requiredCodepoints.Some? {
      var u, w := e.requiredCodepoints.value.0, e.requiredCodepoints.value.1;
      SingleMet(Unicode(u), x);
      SingleMet(Unicode(w), x);
      CnfMetConcat([[Unicode(u)]], [[Unicode(w)]], x);
      assert c == [[Unicode(u)]] + [[Unicode(w)]];
    }
    if e.requiredLigature.Some? {
      EachGlyphMet(e.requiredLigature.value, x, r.glyphs);
    }
    if e.requiredContext.Some? {
      ContextGroupsMet(e.requiredContext.value, x, r.glyphs);
    }
  }

  /** An edge with an empty context group, whose source is reached: all of its groups are met, but a traversal waits forever. */
  lemma EmptyContextDiffers()
    ensures var e := PendingEdge(Glyph(1), Glyph(2), 0, None, None, Some([{}]), None);
            var x: set<Node>, r := {Glyph(1)}, Reached({}, {1}, {});
            SameReached(x, r) && CnfMet(ExtractRequirements(e), x) && !ConstraintsSatisfied(e, r)
  {
    hide CnfMet;
    var e := PendingEdge(Glyph(1), Glyph(2), 0, None, None, Some([{}]), None);
    var x: set<Node>, r := {Glyph(1)}, Reached({}, {1}, {});
    var groups: seq<set<nat>> := [{}];
    assert groups[1..] == [];
    assert ContextGroups(groups) == [];
    assert ExtractRequirements(e) == [[Glyph(1)]];
    SingleMet(Glyph(1), x);
    assert groups[0] * r.glyphs == {};
  }

  lemma FivePartsMet(a: Cnf, b: Cnf, c: Cnf, d: Cnf, f: Cnf, x: set<Node>)
    ensures CnfMet(a + b + c + d + f, x) <==> CnfMet(a, x) && CnfMet(b, x) && CnfMet(c, x) && CnfMet(d, x) && CnfMet(f, x)
  {
    hide CnfMet;
    CnfMetConcat(a, b, x);
    CnfMetConcat(a + b, c, x);
    CnfMetConcat(a + b + c, d, x);
    CnfMetConcat(a + b + c + d, f, x);
  }

  lemma {:induction false} ContextGroupsNotEmpty(groups: seq<set<nat>>)
    ensures forall k :: 0 <= k < |ContextGroups(groups)| ==> ContextGroups(groups)[k] != []
  {
    if groups != [] {
      ContextGroupsNotEmpty(groups[1..]);
    }
  }

  /** The groups never make propagation fail. */
  lemma RequirementsWellFormed(e: PendingEdge)
    ensures ExtractRequirements(e) != [] && forall k :: 0 <= k < |ExtractRequirements(e)| ==> ExtractRequirements(e)[k] != []
  {
    hide ToVector, ContextGroups;
    if e.requiredContext.Some? {
      ContextGroupsNotEmpty(e.requiredContext.value);
    }
  }

  // ---------- collecting the requirements ----------

  function CnfOf(n: Node, e: OutEdge): Cnf {
    match e
    case Direct(_, _) => [[n]]
    case Conjunctive(edge) => ExtractRequirements(edge)
  }

  /** The incoming edges list the requirements of exactly the edges of the sources that may be followed. */
  ghost predicate Collected(c: Config, sources: set<Node>, incoming: Edges) {
    && (forall n, k :: n in incoming && 0 <= k < |incoming[n]| ==> IsListed(c, sources, n, incoming[n][k]))
    && (forall m, e :: m in sources && IsEdge(c, m, e) && Follows(c, e) ==> IsIncoming(incoming, e.Dest(), CnfOf(m, e)))
  }

  ghost predicate IsIncoming(incoming: Edges, n: Node, cnf: Cnf) {
    n in incoming && cnf in incoming[n]
  }

  ghost predicate IsListed(c: Config, sources: set<Node>, n: Node, cnf: Cnf) {
    exists m, e :: m in sources && ListedAs(c, m, e, n, cnf)
  }

  ghost predicate ListedAs(c: Config, m: Node, e: OutEdge, n: Node, cnf: Cnf) {
    IsEdge(c, m, e) && Follows(c, e) && e.Dest() == n && CnfOf(m, e) == cnf
  }

  function Inserted(incoming: Edges, n: Node, cnf: Cnf): Edges {
    if n !in incoming then incoming[n := [cnf]]
    else if cnf in incoming[n] then incoming
    else incoming[n := incoming[n] + [cnf]]
  }

  /** The edges of the first nodes and the first edges of one more have been collected. */
  ghost predicate PartlyCollected(c: Config, nodes: seq<Node>, i: nat, j: nat, incoming: Edges)
    requires i <= |nodes|
  {
    && (forall n, k :: n in incoming && 0 <= k < |incoming[n]| ==> IsListed(c, ToSet(nodes), n, incoming[n][k]))
    && (forall a, e :: 0 <= a < i && IsEdge(c, nodes[a], e) && Follows(c, e) ==> IsIncoming(incoming, e.Dest(), CnfOf(nodes[a], e)))
    && (i < |nodes| ==>
          forall b :: 0 <= b < j && b < |c.outgoing(nodes[i])| ==>
            var e := c.outgoing(nodes[i])[b];
            Follows(c, e) ==> IsIncoming(incoming, e.Dest(), CnfOf(nodes[i], e)))
  }

  lemma CollectedOneMore(c: Config, nodes: seq<Node>, i: nat, j: nat, incoming: Edges)
    requires i < |nodes| && j < |c.outgoing(nodes[i])| && PartlyCollected(c, nodes, i, j, incoming)
    ensures var e := c.outgoing(nodes[i])[j];
            PartlyCollected(c, nodes, i, j + 1, if Follows(c, e) then Inserted(incoming, e.Dest(), CnfOf(nodes[i], e)) else incoming)
  {
    hide Follows, CnfOf;
    var e := c.outgoing(nodes[i])[j];
    if Follows(c, e) {
      var cnf, after := CnfOf(nodes[i], e), Inserted(incoming, e.Dest(), CnfOf(nodes[i], e));
      assert nodes[i] in ToSet(nodes) && ListedAs(c, nodes[i], e, e.Dest(), cnf);
      forall n, x | IsIncoming(incoming, n, x) ensures IsIncoming(after, n, x) {
      }
      forall n, k | n in after && 0 <= k < |after[n]| ensures IsListed(c, ToSet(nodes), n, after[n][k]) {
        if n == e.Dest() && (n !in incoming || k >= |incoming[n]|) {
          assert after[n][k] == cnf;
        }
      }
    }
  }

  lemma CollectedNode(c: Config, nodes: seq<Node>, i: nat, incoming: Edges)
    requires i < |nodes| && PartlyCollected(c, nodes, i, |c.outgoing(nodes[i])|, incoming)
    ensures PartlyCollected(c, nodes, i + 1, 0, incoming)
  {
    hide Follows, CnfOf;
    forall e | IsEdge(c, nodes[i], e) && Follows(c, e) ensures IsIncoming(incoming, e.Dest(), CnfOf(nodes[i], e)) {
      var b :| 0 <= b < |c.outgoing(nodes[i])| && c.outgoing(nodes[i])[b] == e;
    }
  }

  lemma CollectedAll(c: Config, nodes: seq<Node>, incoming: Edges)
    requires PartlyCollected(c, nodes, |nodes|, 0, incoming)
    ensures Collected(c, ToSet(nodes), incoming)
  {
    hide Follows, CnfOf;
    forall m, e | m in ToSet(nodes) && IsEdge(c, m, e) && Follows(c, e) ensures IsIncoming(incoming, e.Dest(), CnfOf(m, e)) {
      var a :| 0 <= a < |nodes| && nodes[a] == m;
    }
  }

  /** Goes through the edges of all the nodes that may be sources, and lists each requirement once. */
  method CollectIncomingEdges(c: Config, nodes: seq<Node>) returns (incoming: Edges)
    ensures Collected(c, ToSet(nodes), incoming)
  {
    hide PartlyCollected, Collected, Follows, CnfOf, Inserted;
    incoming := map[];
    assert PartlyCollected(c, nodes, 0, 0, incoming) by { NothingCollected(c, nodes); }
    for i := 0 to |nodes|
      invariant PartlyCollected(c, nodes, i, 0, incoming)
    {
      var edges := c.outgoing(nodes[i]);
      for j := 0 to |edges|
        invariant PartlyCollected(c, nodes, i, j, incoming)
      {
        CollectedOneMore(c, nodes, i, j, incoming);
        if Follows(c, edges[j]) {
          incoming := Inserted(incoming, edges[j].Dest(), CnfOf(nodes[i], edges[j]));
        }
      }
      CollectedNode(c, nodes, i, incoming);
    }
    CollectedAll(c, nodes, incoming);
  }

  lemma NothingCollected(c: Config, nodes: seq<Node>)
    ensures PartlyCollected(c, nodes, 0, 0, map[])
  {
  }

  /** The requirements that are collected never make propagation fail. */
  lemma CollectedIsWellFormed(c: Config, sources: set<Node>, incoming: Edges)
    requires Collected(c, sources, incoming)
    ensures ConditionPropagation.WellFormed(incoming)
  {
    hide Follows, ExtractRequirements;
    forall n, i | n in incoming && 0 <= i < |incoming[n]|
      ensures incoming[n][i] != [] && forall k :: 0 <= k < |incoming[n][i]| ==> incoming[n][i][k] != []
    {
      assert IsListed(c, sources, n, incoming[n][i]);
      var s, e :| s in sources && ListedAs(c, s, e, n, incoming[n][i]);
      if e.Conjunctive? {
        RequirementsWellFormed(e.edge);
      }
    }
  }

  // ---------- where edges are listed ----------

  ghost predicate Needs(m: Node, e: OutEdge, x: Node) {
    exists k :: 0 <= k < |CnfOf(m, e)| && x in CnfOf(m, e)[k]
  }

  ghost predicate IsNode(n: Node) {
    !n.Segment? && !n.InitFont?
  }

  /** Edges lead to sources, and are listed at their own sources; what they need of `present` is in `begin`. */
  ghost predicate EdgesInPlace(c: Config, sources: set<Node>, begin: set<Node>, present: set<Node>) {
    && sources <= begin
    && forall m, e :: m in begin && IsEdge(c, m, e) && Follows(c, e) ==> EdgeInPlace(c, sources, begin, present, m, e)
  }

  ghost predicate EdgeInPlace(c: Config, sources: set<Node>, begin: set<Node>, present: set<Node>, m: Node, e: OutEdge) {
    && e.Dest() in sources
    && (e.Direct? ==> m in sources)
    && (e.Conjunctive? ==> IsNode(e.edge.source) && IsEdge(c, e.edge.source, e) && (e.edge.source in begin ==> e.edge.source in sources))
    && forall x :: Needs(m, e, x) && x in present ==> x in begin
  }

  /** The node has an edge to n that may be followed. */
  ghost predicate Leads(c: Config, m: Node, n: Node) {
    exists e :: IsEdge(c, m, e) && Follows(c, e) && e.Dest() == n
  }

  /** Whatever an edge needs leads to where the edge leads, by an edge of its own. */
  ghost predicate NeedsLead(c: Config, sources: set<Node>) {
    forall m, e, x :: m in sources && IsEdge(c, m, e) && Follows(c, e) && Needs(m, e, x) ==> Leads(c, x, e.Dest())
  }

  /** At x there is an edge to the same node that needs the same nodes. */
  ghost predicate ListedFor(c: Config, x: Node, e: OutEdge)
    requires e.Conjunctive?
  {
    exists f: OutEdge :: IsEdge(c, x, f) && Follows(c, f) && SameNeeds(e, f)
  }

  ghost predicate SameNeeds(e: OutEdge, f: OutEdge)
    requires e.Conjunctive?
  {
    && f.Conjunctive? && f.Dest() == e.Dest()
    && forall y :: CnfMet(ExtractRequirements(e.edge), y) <==> CnfMet(ExtractRequirements(f.edge), y)
  }

  /** Conjunctive edges are listed, with one source or another, at each node that they need. */
  ghost predicate ListedWhereNeeded(c: Config, sources: set<Node>) {
    forall m, e, x :: m in sources && IsEdge(c, m, e) && Follows(c, e) && e.Conjunctive? && Needs(m, e, x) ==> ListedFor(c, x, e)
  }

  lemma ListedLeads(c: Config, sources: set<Node>)
    requires ListedWhereNeeded(c, sources)
    ensures NeedsLead(c, sources)
  {
    hide Follows, ExtractRequirements;
    forall m, e, x | m in sources && IsEdge(c, m, e) && Follows(c, e) && Needs(m, e, x) ensures Leads(c, x, e.Dest()) {
      if e.Conjunctive? {
        assert ListedFor(c, x, e);
      } else {
        assert x == m;
      }
    }
  }

  /** A required node leads to the node that requires it. */
  lemma RequiredLeadsThere(c: Config, sources: set<Node>, incoming: Edges, n: Node, m: Node)
    requires Collected(c, sources, incoming) && NeedsLead(c, sources) && Requires(incoming, n, m)
    ensures Leads(c, m, n)
  {
    hide Follows, ExtractRequirements;
    var i, k :| 0 <= i < |incoming[n]| && 0 <= k < |incoming[n][i]| && m in incoming[n][i][k];
    assert IsListed(c, sources, n, incoming[n][i]);
    var s, e :| s in sources && ListedAs(c, s, e, n, incoming[n][i]);
    assert CnfOf(s, e)[k] == incoming[n][i][k];
    assert Needs(s, e, m);
  }

  // ---------- the graph of the components ----------

  /** Where the edges lead that may be followed. */
  function Destinations(c: Config, edges: seq<OutEdge>): seq<Node> {
    if edges == [] then []
    else (if Follows(c, edges[0]) then [edges[0].Dest()] else []) + Destinations(c, edges[1..])
  }

  function Successors(c: Config): Graph {
    n => Destinations(c, c.outgoing(n))
  }

  lemma {:induction false} DestinationOf(c: Config, edges: seq<OutEdge>, n: Node)
    ensures n in Destinations(c, edges) <==> exists e :: e in edges && Follows(c, e) && e.Dest() == n
  {
    hide Follows;
    if edges != [] {
      assert edges == [edges[0]] + edges[1..];
      DestinationOf(c, edges[1..], n);
    }
  }

  lemma SuccessorOf(c: Config, m: Node, n: Node)
    ensures n in Successors(c)(m) <==> Leads(c, m, n)
  {
    hide Follows;
    DestinationOf(c, c.outgoing(m), n);
    assert forall e :: e in c.outgoing(m) <==> IsEdge(c, m, e);
  }

  // ---------- conditions against traversals ----------

  /** The nodes by type. */
  ghost function ReachedOf(x: set<Node>): Reached {
    Reached(set n | n in x && n.Unicode? :: n.id, set n | n in x && n.Glyph? :: n.id, set n | n in x && n.Feature? :: n.id)
  }

  lemma VisitedIsReached(c: Config, known: set<Node>, x: set<Node>)
    requires c.preloaded == ReachedOf(known)
    ensures SameReached(x + known, ReachedIn(c, x))
  {
    var r := ReachedIn(c, x);
    forall u ensures u in r.unicodes <==> Unicode(u) in x + known {
      if Unicode(u) in x + known { assert Unicode(u).id == u; }
    }
    forall g ensures g in r.glyphs <==> Glyph(g) in x + known {
      if Glyph(g) in x + known { assert Glyph(g).id == g; }
    }
    forall f ensures f in r.features <==> Feature(f) in x + known {
      if Feature(f) in x + known { assert Feature(f).id == f; }
    }
  }

  /** Edges that the full closure could satisfy have no empty context group. */
  lemma FollowedHasContext(c: Config, e: OutEdge)
    requires Follows(c, e) && e.Conjunctive?
    ensures NoEmptyContext(e.edge)
  {
    if e.edge.requiredContext.Some? {
      var groups := e.edge.requiredContext.value;
      assert forall i :: 0 <= i < |groups| ==> groups[i] * c.fullClosure != {};
    }
  }

  /** A traversal that knows some nodes from the start may take a conjunctive edge exactly when its requirements are met. */
  lemma EnabledIsMet(c: Config, e: OutEdge, known: set<Node>, x: set<Node>)
    requires c.enforceContext && c.preloaded == ReachedOf(known) && e.Conjunctive? && NoEmptyContext(e.edge)
    requires IsNode(e.edge.source) || e.edge.source in x + known
    ensures Enabled(c, e, ReachedIn(c, x)) <==> CnfMet(ExtractRequirements(e.edge), x + known)
  {
    hide ConstraintsSatisfied, ExtractRequirements, ReachedIn, CnfMet, SameReached, ReachedOf;
    VisitedIsReached(c, known, x);
    RequirementsAgree(e.edge, x + known, ReachedIn(c, x));
  }

  /** The source is always one of the requirements. */
  lemma SourceIsRequired(m: Node, e: OutEdge, x: set<Node>)
    requires CnfMet(CnfOf(m, e), x)
    ensures e.Direct? ==> m in x
    ensures e.Conjunctive? ==> e.edge.source in x
  {
    assert GroupMet(CnfOf(m, e)[0], x);
  }

  lemma SourceIsNeeded(m: Node, e: OutEdge)
    requires e.Conjunctive?
    ensures Needs(m, e, e.edge.source)
  {
    assert CnfOf(m, e)[0] == [e.edge.source];
  }

  /** The traversal takes the same edges, but for those to the nodes that it knows from the start. */
  ghost predicate TraversesBut(t: Config, c: Config, known: set<Node>) {
    && t.outgoing == c.outgoing && t.enforceContext && t.preloaded == ReachedOf(known)
    && forall n, e :: IsEdge(c, n, e) ==> (Follows(t, e) ==> Follows(c, e)) && (Follows(c, e) && e.Dest() !in known ==> Follows(t, e))
  }

  /** What forward chaining reaches is closed for the traversal. */
  lemma ClosedForTraversal(t: Config, c: Config, sources: set<Node>, begin: set<Node>, present: set<Node>, known: set<Node>, incoming: Edges, x: set<Node>)
    requires Collected(c, sources, incoming) && EdgesInPlace(c, sources, begin, present) && TraversesBut(t, c, known)
    requires known <= x && known <= present && forall n :: Fires(incoming, n, x) ==> n in x
    ensures ClosedUnder(t, x * begin)
  {
    hide ReachedIn, Follows, CnfMet, CnfOf, Enabled, ReachedOf, NoEmptyContext, ExtractRequirements, Needs;
    var y := x * begin;
    forall m, e | m in y && IsEdge(t, m, e) && Follows(t, e) && Enabled(t, e, ReachedIn(t, y)) ensures e.Dest() in y {
      assert IsEdge(c, m, e) && Follows(c, e) && EdgeInPlace(c, sources, begin, present, m, e);
      EdgeTaken(t, c, sources, begin, present, known, incoming, x, m, e);
    }
  }

  lemma EdgeTaken(t: Config, c: Config, sources: set<Node>, begin: set<Node>, present: set<Node>, known: set<Node>, incoming: Edges,
                  x: set<Node>, m: Node, e: OutEdge)
    requires Collected(c, sources, incoming) && sources <= begin && TraversesBut(t, c, known)
    requires known <= x && known <= present && forall n :: Fires(incoming, n, x) ==> n in x
    requires m in x && m in begin && IsEdge(c, m, e) && Follows(c, e) && Enabled(t, e, ReachedIn(t, x * begin))
    requires EdgeInPlace(c, sources, begin, present, m, e)
    ensures e.Dest() in x * begin
  {
    hide ReachedIn, Follows, CnfMet, Enabled, ReachedOf, NoEmptyContext, ExtractRequirements, Needs, Fires;
    var s := if e.Direct? then m else e.edge.source;
    var y := x * begin;
    if e.Conjunctive? {
      FollowedHasContext(c, e);
      EnabledIsMet(t, e, known, y);
      SourceIsRequired(m, e, y + known);
      SourceIsNeeded(m, e);
      CnfMetMore(CnfOf(m, e), y + known, x);
    } else {
      SingleMet(m, x);
    }
    assert s in sources && IsEdge(c, s, e);
    assert CnfOf(s, e) == CnfOf(m, e);
    ListedFires(incoming, e.Dest(), CnfOf(s, e), x);
  }

  lemma ListedFires(incoming: Edges, n: Node, cnf: Cnf, x: set<Node>)
    requires IsIncoming(incoming, n, cnf) && CnfMet(cnf, x)
    ensures Fires(incoming, n, x)
  {
    hide CnfMet;
    var k :| 0 <= k < |incoming[n]| && incoming[n][k] == cnf;
  }

  /** What a traversal visits, with the nodes that hold at the start, is closed for the incoming edges. */
  lemma ClosedForEdges(t: Config, c: Config, sources: set<Node>, begin: set<Node>, present: set<Node>, known: set<Node>, incoming: Edges,
                       start: set<Node>, visited: set<Node>)
    requires Collected(c, sources, incoming) && EdgesInPlace(c, sources, begin, present) && TraversesBut(t, c, known)
    requires known <= start <= present && start * begin - known <= visited && ClosedUnder(t, visited)
    requires known != {} ==> ListedWhereNeeded(c, sources)
    requires forall n :: Fires(incoming, n, known) ==> n in known
    ensures forall n :: Fires(incoming, n, visited + start) ==> n in visited + start
  {
    hide ReachedIn, Follows, CnfMet, CnfOf, Enabled, ReachedOf, NoEmptyContext, ExtractRequirements, Needs, ListedWhereNeeded, ClosedUnder;
    forall n | Fires(incoming, n, visited + start) ensures n in visited + start {
      var k :| 0 <= k < |incoming[n]| && CnfMet(incoming[n][k], visited + start);
      assert IsListed(c, sources, n, incoming[n][k]);
      var m, e :| m in sources && ListedAs(c, m, e, n, incoming[n][k]);
      assert EdgeInPlace(c, sources, begin, present, m, e);
      NeededAreKnown(c, sources, begin, present, known, m, e, start, visited);
      if n !in known {
        EdgeVisited(t, c, sources, known, incoming, visited, m, e);
      }
    }
  }

  lemma NeededAreKnown(c: Config, sources: set<Node>, begin: set<Node>, present: set<Node>, known: set<Node>, m: Node, e: OutEdge,
                       start: set<Node>, visited: set<Node>)
    requires EdgeInPlace(c, sources, begin, present, m, e) && CnfMet(CnfOf(m, e), visited + start)
    requires known <= start <= present && start * begin - known <= visited
    ensures CnfMet(CnfOf(m, e), visited + known)
  {
    hide CnfOf, IsEdge;
    forall k | 0 <= k < |CnfOf(m, e)| ensures GroupMet(CnfOf(m, e)[k], visited + known) {
      assert GroupMet(CnfOf(m, e)[k], visited + start);
      var x :| x in CnfOf(m, e)[k] && x in visited + start;
      assert Needs(m, e, x);
    }
  }

  /** An edge whose requirements are visited or known is taken from a node that it needs. */
  lemma EdgeVisited(t: Config, c: Config, sources: set<Node>, known: set<Node>, incoming: Edges, visited: set<Node>, m: Node, e: OutEdge)
    requires Collected(c, sources, incoming) && TraversesBut(t, c, known) && ClosedUnder(t, visited)
    requires m in sources && IsEdge(c, m, e) && Follows(c, e) && e.Dest() !in known && CnfMet(CnfOf(m, e), visited + known)
    requires e.Conjunctive? ==> IsEdge(c, e.edge.source, e)
    requires known != {} ==> ListedWhereNeeded(c, sources)
    requires forall n :: Fires(incoming, n, known) ==> n in known
    ensures e.Dest() in visited
  {
    hide ReachedIn, Follows, CnfMet, Enabled, ReachedOf, NoEmptyContext, ExtractRequirements, Needs, Fires, SameNeeds;
    SourceIsRequired(m, e, visited + known);
    if !CnfMet(CnfOf(m, e), known) {
      if e.Direct? {
        SingleMet(m, known);
        assert Enabled(t, e, ReachedIn(t, visited)) by { DirectIsEnabled(t, e, ReachedIn(t, visited)); }
      } else {
        var y, f := EdgeAtVisited(c, sources, known, visited, m, e);
        FollowedHasContext(c, f);
        EnabledIsMet(t, f, known, visited);
        assert f.Dest() == e.Dest();
      }
    } else {
      assert IsIncoming(incoming, e.Dest(), CnfOf(m, e));
      ListedFires(incoming, e.Dest(), CnfOf(m, e), known);
    }
  }

  lemma DirectIsEnabled(t: Config, e: OutEdge, r: Reached)
    requires e.Direct?
    ensures Enabled(t, e, r)
  {
  }

  /** One of the nodes that the edge needs has been visited, and lists it. */
  lemma EdgeAtVisited(c: Config, sources: set<Node>, known: set<Node>, visited: set<Node>, m: Node, e: OutEdge) returns (y: Node, f: OutEdge)
    requires m in sources && IsEdge(c, m, e) && Follows(c, e) && e.Conjunctive? && IsEdge(c, e.edge.source, e)
    requires CnfMet(CnfOf(m, e), visited + known) && !CnfMet(CnfOf(m, e), known)
    requires known != {} ==> ListedWhereNeeded(c, sources)
    ensures y in visited && IsEdge(c, y, f) && Follows(c, f) && f.Conjunctive? && f.Dest() == e.Dest()
    ensures CnfMet(ExtractRequirements(f.edge), visited + known) && f.edge.source in visited + known
  {
    hide ExtractRequirements, Follows;
    SourceIsRequired(m, e, visited + known);
    if known == {} {
      y, f := e.edge.source, e;
    } else {
      var k :| 0 <= k < |CnfOf(m, e)| && !GroupMet(CnfOf(m, e)[k], known);
      assert GroupMet(CnfOf(m, e)[k], visited + known);
      y :| y in CnfOf(m, e)[k] && y in visited + known;
      assert Needs(m, e, y) && ListedFor(c, y, e);
      f :| IsEdge(c, y, f) && Follows(c, f) && SameNeeds(e, f);
      SourceIsRequired(y, f, visited + known);
    }
  }

  /** What forward chaining reaches from the start is what a traversal visits that knows some of the start already. */
  lemma ConditionsMatchTraversal(t: Config, c: Config, sources: set<Node>, begin: set<Node>, present: set<Node>, known: set<Node>,
                                 incoming: Edges, nodes: set<Node>, start: set<Node>, x: set<Node>, visited: set<Node>)
    requires Collected(c, sources, incoming) && EdgesInPlace(c, sources, begin, present) && TraversesBut(t, c, known)
    requires known <= start <= present && IsLeast(incoming, nodes, start, x) && forall n :: Fires(incoming, n, x) ==> n in x
    requires known != {} ==> ListedWhereNeeded(c, sources)
    requires forall n :: Fires(incoming, n, known) ==> n in known
    requires t.start == start * begin - known && IsLeastClosed(t, visited)
    ensures visited - known == x * begin - known
  {
    hide Collected, ClosedUnder, ClosedFor, Fires, EdgesInPlace, TraversesBut, ListedWhereNeeded;
    ClosedForTraversal(t, c, sources, begin, present, known, incoming, x);
    assert visited <= x * begin;
    ClosedForEdges(t, c, sources, begin, present, known, incoming, start, visited);
    assert ClosedFor(incoming, nodes, visited + start) by { ClosedEverywhere(incoming, nodes, visited + start); }
    assert x <= visited + start;
    forall n | n in x * begin - known ensures n in visited {
    }
  }

  /** What forward chaining reaches is itself what a traversal visits that knows nothing beforehand. */
  lemma ConditionsAreTraversed(t: Config, c: Config, sources: set<Node>, begin: set<Node>, present: set<Node>,
                               incoming: Edges, nodes: set<Node>, start: set<Node>, x: set<Node>)
    requires Collected(c, sources, incoming) && EdgesInPlace(c, sources, begin, present) && TraversesBut(t, c, {})
    requires start <= present && IsLeast(incoming, nodes, start, x) && forall n :: Fires(incoming, n, x) ==> n in x
    requires forall n :: !Fires(incoming, n, {})
    requires t.start == start * begin
    ensures IsLeastClosed(t, x * begin)
  {
    hide Collected, ClosedUnder, ClosedFor, Fires, EdgesInPlace, TraversesBut, ListedWhereNeeded;
    var none: set<Node> := {};
    ClosedForTraversal(t, c, sources, begin, present, none, incoming, x);
    forall y | t.start <= y && ClosedUnder(t, y) ensures x * begin <= y {
      ClosedForEdges(t, c, sources, begin, present, none, incoming, start, y);
      assert ClosedFor(incoming, nodes, y + start) by { ClosedEverywhere(incoming, nodes, y + start); }
      assert x <= y + start;
    }
  }

  lemma ClosedEverywhere(incoming: Edges, nodes: set<Node>, x: set<Node>)
    requires forall n :: Fires(incoming, n, x) ==> n in x
    ensures ClosedFor(incoming, nodes, x)
  {
  }
}
