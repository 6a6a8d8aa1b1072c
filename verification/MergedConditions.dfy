/** What merging segments does to the conditions of nodes: renaming agrees with propagating again. */
module MergedConditions {
  import opened Reachability
  import opened SegmentGroups
  import opened ActivationConditions
  import opened NodeConditions

  /** The segments to merge all become `base`; other nodes stay. */
  function RenameNode(n: Node, base: nat, segments: set<nat>): Node {
    if n.Segment? && n.id in segments then Segment(base) else n
  }

  function RenameGroup(group: seq<Node>, base: nat, segments: set<nat>): (r: seq<Node>)
    ensures |r| == |group|
  {
    seq(|group|, i requires 0 <= i < |group| => RenameNode(group[i], base, segments))
  }

  function RenameCnf(cnf: Cnf, base: nat, segments: set<nat>): (r: Cnf)
    ensures |r| == |cnf|
  {
    seq(|cnf|, i requires 0 <= i < |cnf| => RenameGroup(cnf[i], base, segments))
  }

  function RenameAll(edges: seq<Cnf>, base: nat, segments: set<nat>): (r: seq<Cnf>)
    ensures |r| == |edges|
  {
    seq(|edges|, i requires 0 <= i < |edges| => RenameCnf(edges[i], base, segments))
  }

  /** The base segment takes over the outgoing edges of all merged segments. */
  function RenameEdges(incoming: Edges, base: nat, segments: set<nat>): Edges {
    map n | n in incoming :: RenameAll(incoming[n], base, segments)
  }

  ghost predicate NoSegments(incoming: Edges) {
    forall n :: n in incoming ==> !n.Segment?
  }

  /** A node is in x exactly when its new name is in y. */
  ghost predicate Correspond(x: set<Node>, y: set<Node>, base: nat, segments: set<nat>) {
    forall n :: n in x <==> RenameNode(n, base, segments) in y
  }

  lemma CnfForward(cnf: Cnf, base: nat, segments: set<nat>, x: set<Node>, y: set<Node>)
    requires CnfMet(cnf, x) && forall n :: n in x ==> RenameNode(n, base, segments) in y
    ensures CnfMet(RenameCnf(cnf, base, segments), y)
  {
    var r := RenameCnf(cnf, base, segments);
    forall k | 0 <= k < |r| ensures GroupMet(r[k], y) {
      assert GroupMet(cnf[k], x);
      var m :| m in cnf[k] && m in x;
      var i :| 0 <= i < |cnf[k]| && cnf[k][i] == m;
      assert r[k][i] == RenameNode(m, base, segments);
    }
  }

  lemma CnfBackward(cnf: Cnf, base: nat, segments: set<nat>, x: set<Node>, y: set<Node>)
    requires CnfMet(RenameCnf(cnf, base, segments), y) && forall n :: RenameNode(n, base, segments) in y ==> n in x
    ensures CnfMet(cnf, x)
  {
    var r := RenameCnf(cnf, base, segments);
    forall k | 0 <= k < |cnf| ensures GroupMet(cnf[k], x) {
      assert GroupMet(r[k], y);
      var m :| m in r[k] && m in y;
      var i :| 0 <= i < |r[k]| && r[k][i] == m;
      assert r[k][i] == RenameNode(cnf[k][i], base, segments) && cnf[k][i] in x;
    }
  }

  lemma FiresForward(incoming: Edges, base: nat, segments: set<nat>, n: Node, x: set<Node>, y: set<Node>)
    requires Fires(incoming, n, x) && forall m :: m in x ==> RenameNode(m, base, segments) in y
    ensures Fires(RenameEdges(incoming, base, segments), n, y)
  {
    hide CnfMet;
    var k :| 0 <= k < |incoming[n]| && CnfMet(incoming[n][k], x);
    CnfForward(incoming[n][k], base, segments, x, y);
    assert RenameEdges(incoming, base, segments)[n][k] == RenameCnf(incoming[n][k], base, segments);
  }

  lemma FiresBackward(incoming: Edges, base: nat, segments: set<nat>, n: Node, x: set<Node>, y: set<Node>)
    requires Fires(RenameEdges(incoming, base, segments), n, y) && forall m :: RenameNode(m, base, segments) in y ==> m in x
    ensures Fires(incoming, n, x)
  {
    hide CnfMet;
    var renamed := RenameEdges(incoming, base, segments)[n];
    var k :| 0 <= k < |renamed| && CnfMet(renamed[k], y);
    assert renamed[k] == RenameCnf(incoming[n][k], base, segments);
    CnfBackward(incoming[n][k], base, segments, x, y);
  }

  ghost predicate SameButSegments(a: set<Node>, b: set<Node>) {
    forall n: Node :: !n.Segment? ==> (n in a <==> n in b)
  }

  lemma LeastForward(incoming: Edges, nodes: set<Node>, nodes': set<Node>, base: nat, segments: set<nat>, i: set<Node>, i': set<Node>, x: set<Node>, x': set<Node>)
    requires NoSegments(incoming) && SameButSegments(nodes, nodes')
    requires Correspond(i, i', base, segments)
    requires IsLeast(incoming, nodes, i, x) && IsLeast(RenameEdges(incoming, base, segments), nodes', i', x')
    ensures forall n :: n in x ==> RenameNode(n, base, segments) in x'
  {
    var y := set n | n in x && RenameNode(n, base, segments) in x';
    hide Fires;
    forall n | n in nodes && Fires(incoming, n, y) ensures n in y {
      FiresMore(incoming, n, y, x);
      FiresForward(incoming, base, segments, n, y, x');
      assert n in incoming by { KeyOfFires(incoming, n, y); }
    }
    assert i <= y;
    assert ClosedFor(incoming, nodes, y);
  }

  lemma KeyOfFires(incoming: Edges, n: Node, x: set<Node>)
    requires Fires(incoming, n, x)
    ensures n in incoming
  {
  }

  lemma LeastBackward(incoming: Edges, nodes: set<Node>, nodes': set<Node>, base: nat, segments: set<nat>, i: set<Node>, i': set<Node>, x: set<Node>, x': set<Node>)
    requires NoSegments(incoming) && SameButSegments(nodes, nodes')
    requires Correspond(i, i', base, segments)
    requires IsLeast(incoming, nodes, i, x) && IsLeast(RenameEdges(incoming, base, segments), nodes', i', x')
    ensures forall n :: RenameNode(n, base, segments) in x' ==> n in x
  {
    var y := set m | m in x' && forall n :: RenameNode(n, base, segments) == m ==> n in x;
    var renamed := RenameEdges(incoming, base, segments);
    hide Fires;
    forall n | n in nodes' && Fires(renamed, n, y) ensures n in y {
      FiresMore(renamed, n, y, x');
      FiresBackward(incoming, base, segments, n, x, y);
      KeyOfFires(renamed, n, y);
      assert n in incoming && !n.Segment?;
    }
    assert ClosedFor(renamed, nodes', y);
    assert i' <= y;
  }

  /** The least sets before and after the renaming correspond. */
  lemma LeastCorrespond(incoming: Edges, nodes: set<Node>, nodes': set<Node>, base: nat, segments: set<nat>, i: set<Node>, i': set<Node>, x: set<Node>, x': set<Node>)
    requires NoSegments(incoming) && SameButSegments(nodes, nodes')
    requires Correspond(i, i', base, segments)
    requires IsLeast(incoming, nodes, i, x) && IsLeast(RenameEdges(incoming, base, segments), nodes', i', x')
    ensures Correspond(x, x', base, segments)
  {
    LeastForward(incoming, nodes, nodes', base, segments, i, i', x, x');
    LeastBackward(incoming, nodes, nodes', base, segments, i, i', x, x');
  }

  // ---------- starting again after the merge ----------

  /** Segment nodes are there for `ids`, and are reached when the segment is active. */
  ghost predicate SegmentsStart(c: Conditions, ids: set<nat>) {
    && (forall s :: Segment(s) in c <==> s in ids)
    && (forall s, active :: Segment(s) in c ==> (c[Segment(s)].HoldsFor(active) <==> s in active))
  }

  /** Conditions for a start where base has taken over from the merged segments, which are empty now. */
  ghost predicate MergedStart(start: Conditions, start': Conditions, ids: set<nat>, base: nat, segments: set<nat>) {
    && base in ids && segments <= ids
    && SegmentsStart(start, ids) && SegmentsStart(start', ids - (segments - {base}))
    && SameButSegments(start.Keys, start'.Keys)
    && forall n: Node, active :: !n.Segment? && n in start && n in start' ==>
         (start'[n].HoldsFor(active) <==> start[n].HoldsFor(Renamed(active, base, segments)))
  }

  ghost function RenameView(v: View, base: nat, segments: set<nat>): View {
    match v
    case Present => Present
    case Under(active) => Under(Renamed(active, base, segments))
  }

  lemma SegmentCorresponds(start: Conditions, start': Conditions, ids: set<nat>, base: nat, segments: set<nat>, s: nat, active: set<nat>)
    requires base in ids && segments <= ids && SegmentsStart(start, ids) && SegmentsStart(start', ids - (segments - {base}))
    ensures var s' := if s in segments then base else s;
            && (Segment(s) in start <==> Segment(s') in start')
            && (Segment(s) in Nodes(start, Under(Renamed(active, base, segments))) <==> Segment(s') in Nodes(start', Under(active)))
  {
    hide Holds;
    var s' := if s in segments then base else s;
    assert s in ids <==> s' in ids - (segments - {base});
    assert s in Renamed(active, base, segments) <==> s' in active;
  }

  lemma StartsCorrespond(start: Conditions, start': Conditions, ids: set<nat>, base: nat, segments: set<nat>, v: View)
    requires MergedStart(start, start', ids, base, segments)
    ensures Correspond(Nodes(start, RenameView(v, base, segments)), Nodes(start', v), base, segments)
  {
    hide Holds, Renamed, SegmentsStart;
    var x, y := Nodes(start, RenameView(v, base, segments)), Nodes(start', v);
    forall n ensures n in x <==> RenameNode(n, base, segments) in y {
      match n
      case Segment(s) =>
        SegmentCorresponds(start, start', ids, base, segments, s, if v.Under? then v.active else {});
      case _ =>
    }
  }

  /** Each condition after is the one before with the segments renamed. */
  ghost predicate MergedFrom(before: Conditions, after: Conditions, base: nat, segments: set<nat>) {
    && before.Keys == after.Keys && AllValid(after)
    && forall n, active :: n in before && n in after ==>
         (after[n].HoldsFor(active) <==> before[n].HoldsFor(Renamed(active, base, segments)))
  }

  lemma MergedNodes(before: Conditions, after: Conditions, base: nat, segments: set<nat>, v: View)
    requires MergedFrom(before, after, base, segments)
    ensures Nodes(after, v) == Nodes(before, RenameView(v, base, segments))
  {
  }

  /** Renaming in the results gives what propagating anew gives, group for group, for all nodes but segments. */
  lemma MergeAgrees(incoming: Edges, nodes: set<Node>, nodes': set<Node>, base: nat, segments: set<nat>, ids: set<nat>,
                    start: Conditions, start': Conditions, c: Conditions, merged: Conditions, again: Conditions)
    requires NoSegments(incoming) && SameButSegments(nodes, nodes')
    requires MergedStart(start, start', ids, base, segments)
    requires Propagated(incoming, nodes, start, c) && MergedFrom(c, merged, base, segments)
    requires Propagated(RenameEdges(incoming, base, segments), nodes', start', again)
    ensures SameButSegments(merged.Keys, again.Keys)
    ensures forall n: Node :: !n.Segment? && n in merged && n in again ==> merged[n].groups == again[n].groups
  {
    hide IsLeast, Renamed, MergedStart;
    forall v ensures SameButSegments(Nodes(merged, v), Nodes(again, v)) {
      var w := RenameView(v, base, segments);
      StartsCorrespond(start, start', ids, base, segments, v);
      assert IsLeast(incoming, nodes, Nodes(start, w), Nodes(c, w));
      assert IsLeast(RenameEdges(incoming, base, segments), nodes', Nodes(start', v), Nodes(again, v));
      LeastCorrespond(incoming, nodes, nodes', base, segments, Nodes(start, w), Nodes(start', v), Nodes(c, w), Nodes(again, v));
      MergedNodes(c, merged, base, segments, v);
    }
    assert SameButSegments(Nodes(merged, Present), Nodes(again, Present));
    forall n: Node | !n.Segment? && n in merged && n in again ensures merged[n].groups == again[n].groups {
      SameGroups(merged, again, n);
    }
  }

  lemma SameGroups(merged: Conditions, again: Conditions, n: Node)
    requires !n.Segment? && n in merged && n in again && merged[n].Valid() && again[n].Valid()
    requires forall v :: SameButSegments(Nodes(merged, v), Nodes(again, v))
    ensures merged[n].groups == again[n].groups
  {
    hide Holds, Canonical;
    forall active ensures Holds(merged[n].groups, active) <==> Holds(again[n].groups, active) {
      assert SameButSegments(Nodes(merged, Under(active)), Nodes(again, Under(active)));
      assert n in Nodes(merged, Under(active)) <==> merged[n].HoldsFor(active);
    }
    CanonicalUnique(merged[n].groups, again[n].groups);
  }

  /** The exclusive flags need not agree. A node that two edges lead to from segment 0, and with it another one from segment
      1: merged, its condition counts as exclusive; propagated anew, it does not. */
  method FlagsMayDiffer() returns (merged: ActivationCondition, again: ActivationCondition)
    ensures merged.groups == again.groups && merged.isExclusive && !again.isExclusive
  {
    var zero, one := ExclusiveSegment(0, 0), ExclusiveSegment(1, 0);
    var twice := Or(zero, zero);
    var both := And(twice, one);
    merged := ReplaceSegments(both, 0, {0, 1});
    again := And(twice, zero);
    SegmentOnly(again.groups, 0);
    BothSegments(both.groups);
    forall active ensures merged.HoldsFor(active) <==> 0 in active {
      assert merged.HoldsFor(active) <==> both.HoldsFor(Renamed(active, 0, {0, 1}));
    }
    SegmentOnly(merged.groups, 0);
  }

  /** The canonical form of a single segment. */
  lemma SegmentOnly(groups: seq<Group>, s: nat)
    requires Canonical(groups) && forall active :: Holds(groups, active) <==> s in active
    ensures groups == [{s}]
  {
    var single := ExclusiveSegment(s, 0);
    CanonicalUnique(groups, single.groups);
  }

  /** The canonical form of two segments that are both needed. */
  lemma BothSegments(groups: seq<Group>)
    requires Canonical(groups) && forall active :: Holds(groups, active) <==> 0 in active && 1 in active
    ensures |groups| == 2 && forall g :: g in groups ==> |g| <= 1
  {
    hide Canonical;
    var ids: seq<nat> := [0, 1];
    var pair := Singletons(ids);
    SingletonsCanonical(ids);
    forall active ensures Holds(pair, active) <==> 0 in active && 1 in active {
      HoldsMembers(pair, active);
      SingletonMeets(0, active);
      SingletonMeets(1, active);
      assert pair[0] == {0} && pair[1] == {1};
    }
    CanonicalUnique(groups, pair);
  }
}
