/** Conditions compiled to nodes: why a node combines the nodes of the parts of its condition correctly. */
module EntryCompilation {
  import opened IntSets
  import opened SubsetDefinitions
  import opened SegmentGroups
  import opened ActivationConditions
  import opened EntryNodes
  import opened EntryGraphs
  import opened EntrySubsumption
  import opened EntryBuilding
  import opened EntryLinking
  import opened EntrySort

  /** How deeply a condition nests: one segment, one group, or several groups. */
  function Level(k: seq<Group>): nat {
    if |k| == 1 then (if |k[0]| <= 1 then 0 else 1) else 2
  }

  /** Normalizing does not nest deeper. */
  lemma NormalizedLevel(groups: seq<Group>, k: Key)
    requires Simplified(groups, k)
    ensures Level(k) <= Level(groups)
    ensures |groups| == 1 ==> k == groups
  {
    hide Simplified;
    if |groups| == 1 {
      assert groups == [groups[0]];
      SimplifiedSingle(groups[0], k);
    }
  }

  lemma SimplifiedSingle(g: Group, k: Key)
    requires Simplified([g], k)
    ensures k == [g]
  {
    SingleGroup(g);
    forall h ensures h in k <==> h in [g] {
      assert Minimal([g], h) <==> h == g;
    }
    SortedUnique(k, [g]);
  }

  lemma NormalizedKeyOk(segments: Segments, groups: seq<Group>, k: Key)
    requires Simplified(groups, k) && forall i :: 0 <= i < |groups| ==> groups[i] != {} && groups[i] <= segments.Keys
    ensures KeyOk(segments, k)
  {
    forall i | 0 <= i < |k| ensures k[i] != {} && k[i] <= segments.Keys {
      assert k[i] in k;
      assert k[i] in groups;
    }
  }

  /** The conditions that are being added are more deeply nested than this one. */
  ghost predicate Above(open: set<Key>, level: nat) {
    forall k :: k in open ==> Level(k) > level
  }

  /** Children found so far, one for each of the first n parts. */
  ghost predicate FoundChildren(g: Graph, parts: seq<Key>, n: nat, ids: seq<nat>) {
    && n == |ids| <= |parts|
    && forall i :: 0 <= i < n ==> parts[i] in g.byCondition && g.byCondition[parts[i]] == ids[i]
  }

  lemma FoundStays(g: Graph, g': Graph, parts: seq<Key>, n: nat, ids: seq<nat>)
    requires FoundChildren(g, parts, n, ids) && Extends(g, g')
    ensures FoundChildren(g', parts, n, ids)
  {
  }

  lemma FoundMore(g: Graph, parts: seq<Key>, n: nat, ids: seq<nat>, id: nat)
    requires FoundChildren(g, parts, n, ids) && n < |parts| && parts[n] in g.byCondition && g.byCondition[parts[n]] == id
    ensures FoundChildren(g, parts, n + 1, ids + [id])
  {
  }

  /** The parts are different conditions, none of them empty or still being added. */
  ghost predicate GoodParts(parts: seq<Key>, open: set<Key>) {
    && (forall i :: 0 <= i < |parts| ==> parts[i] !in open && parts[i] != [])
    && forall i, j :: 0 <= i < j < |parts| ==> parts[i] != parts[j]
  }

  /** The children that were found can be linked. */
  lemma FoundLinkable(segments: Segments, g: Graph, open: set<Key>, pending: multiset<nat>, k: Key, parts: seq<Key>, ids: seq<nat>)
    returns (bound: nat)
    requires Building(segments, g, open, pending) && k in open && FoundChildren(g, parts, |parts|, ids) && GoodParts(parts, open)
    ensures open <= g.byCondition.Keys && k in g.byCondition && g.byCondition[k] < |g.nodes| == |g.rank|
    ensures Linkable(g, g.byCondition[k], ids, bound) && g.rank[g.byCondition[k]] <= bound
    ensures forall i :: 0 <= i < |ids| ==> ids[i] < |g.nodes| && Solid(g.nodes[ids[i]])
    ensures forall i, k' :: 0 <= i < |ids| && k' in open && k' in g.byCondition ==> ids[i] != g.byCondition[k']
    ensures g.nodes[g.byCondition[k]].sets == NOTHING
  {
    OpenIsFree(segments, g, open, pending, k);
    CoreFacts(g, pending);
    var most := Bounded(g.rank);
    bound := most + 1;
    hide Core, Means, KeyOk, NoParents, Acyclic;
    forall i | 0 <= i < |ids| ensures ids[i] < |g.nodes| && Solid(g.nodes[ids[i]]) {
      assert parts[i] in g.byCondition && parts[i] !in open;
    }
    forall i, k' | 0 <= i < |ids| && k' in open && k' in g.byCondition ensures ids[i] != g.byCondition[k'] {
      assert parts[i] in g.byCondition && parts[i] != k';
    }
    forall i, j | 0 <= i < j < |ids| ensures ids[i] != ids[j] {
      assert parts[i] in g.byCondition && parts[j] in g.byCondition && parts[i] != parts[j];
    }
  }

  lemma FoundMeaning(segments: Segments, g: Graph, open: set<Key>, pending: multiset<nat>, parts: seq<Key>, ids: seq<nat>,
                     i: nat, input: SubsetDefinition)
    requires Building(segments, g, open, pending) && FoundChildren(g, parts, |parts|, ids) && GoodParts(parts, open) && i < |ids|
    ensures Acyclic(g.nodes, g.rank) && ids[i] < |g.nodes|
    ensures Eval(g.nodes, g.rank, ids[i], input) <==> Holds(parts[i], Active(segments, input))
  {
    CoreFacts(g, pending);
    hide Core, KeyOk, NoParents, Acyclic;
    assert parts[i] in g.byCondition && parts[i] !in open;
    assert Means(segments, g.nodes, g.rank, g.byCondition[parts[i]], parts[i]);
  }

  // ---------- several groups ----------

  ghost function GroupKeys(k: Key): seq<Key> {
    seq(|k|, i requires 0 <= i < |k| => [k[i]])
  }

  lemma GroupKeysGood(k: Key, open: set<Key>)
    requires Canonical(k) && Above(open, 1)
    ensures GoodParts(GroupKeys(k), open)
  {
    hide SetLess;
    var parts := GroupKeys(k);
    forall i, j | 0 <= i < j < |parts| ensures parts[i] != parts[j] {
      SetOrder(k[i], k[j]);
      assert parts[i][0] == k[i] && parts[j][0] == k[j];
    }
    forall i | 0 <= i < |parts| ensures parts[i] !in open && parts[i] != [] {
      assert Level([k[i]]) <= 1;
    }
  }

  lemma AndMeans(segments: Segments, g: Graph, open: set<Key>, pending: multiset<nat>, k: Key, v: nat, ids: seq<nat>)
    requires Building(segments, g, open, pending) && FoundChildren(g, GroupKeys(k), |k|, ids) && GoodParts(GroupKeys(k), open)
    requires Combines(g.nodes, g.rank, v, AND, ids)
    ensures Acyclic(g.nodes, g.rank) && v < |g.nodes| && Means(segments, g.nodes, g.rank, v, k)
  {
    hide Building, Acyclic, Eval;
    forall input ensures Eval(g.nodes, g.rank, v, input) <==> Holds(k, Active(segments, input)) {
      forall i | 0 <= i < |ids| ensures Eval(g.nodes, g.rank, ids[i], input) <==> k[i] * Active(segments, input) != {} {
        FoundMeaning(segments, g, open, pending, GroupKeys(k), ids, i, input);
        assert GroupKeys(k)[i] == [k[i]];
        assert [k[i]][0] == k[i];
      }
    }
  }

  // ---------- one group ----------

  ghost function SegmentKeys(ids: seq<nat>): seq<Key> {
    seq(|ids|, i requires 0 <= i < |ids| => [{ids[i]}])
  }

  lemma SegmentKeysGood(s: seq<nat>, open: set<Key>)
    requires Ascending(s) && Above(open, 0)
    ensures GoodParts(SegmentKeys(s), open)
  {
    var parts := SegmentKeys(s);
    forall i, j | 0 <= i < j < |parts| ensures parts[i] != parts[j] {
      assert parts[i][0] == {s[i]} && parts[j][0] == {s[j]};
      assert s[i] in parts[i][0];
    }
    forall i | 0 <= i < |parts| ensures parts[i] !in open && parts[i] != [] {
      assert Level([{s[i]}]) == 0;
    }
  }

  lemma OrMeans(segments: Segments, g: Graph, open: set<Key>, pending: multiset<nat>, k: Key, v: nat, s: seq<nat>, ids: seq<nat>)
    requires Building(segments, g, open, pending) && FoundChildren(g, SegmentKeys(s), |s|, ids) && GoodParts(SegmentKeys(s), open)
    requires Combines(g.nodes, g.rank, v, OR, ids) && |k| == 1 && forall x :: x in s <==> x in k[0]
    ensures Acyclic(g.nodes, g.rank) && v < |g.nodes| && Means(segments, g.nodes, g.rank, v, k)
  {
    hide Building, Acyclic, Eval;
    forall input ensures Eval(g.nodes, g.rank, v, input) <==> Holds(k, Active(segments, input)) {
      var active := Active(segments, input);
      forall i | 0 <= i < |ids| ensures Eval(g.nodes, g.rank, ids[i], input) <==> s[i] in active {
        FoundMeaning(segments, g, open, pending, SegmentKeys(s), ids, i, input);
        assert SegmentKeys(s)[i] == [{s[i]}];
        SingleGroup({s[i]});
        SingletonMeets(s[i], active);
      }
      SomeSegment(k, s, active);
    }
  }

  lemma SomeSegment(k: Key, s: seq<nat>, active: set<nat>)
    requires |k| == 1 && forall x :: x in s <==> x in k[0]
    ensures Holds(k, active) <==> exists i :: 0 <= i < |s| && s[i] in active
  {
    assert k == [k[0]];
    SingleGroup(k[0]);
    if k[0] * active != {} {
      var x :| x in k[0] * active;
      var i :| 0 <= i < |s| && s[i] == x;
    }
    if i :| 0 <= i < |s| && s[i] in active {
      assert s[i] in k[0] * active;
    }
  }

  // ---------- one segment with several kinds of sets ----------

  /** v has the leaves of the first n parts as its children. */
  ghost predicate HasParts(g: Graph, v: nat, parts: seq<SubsetDefinition>, n: nat)
  {
    && v < |g.nodes| && n <= |parts|
    && (forall i :: 0 <= i < n ==> parts[i] in g.bySets)
    && (forall c :: c in g.nodes[v].children <==> exists i :: 0 <= i < n && parts[i] in g.bySets && g.bySets[parts[i]] == c)
    && |g.nodes[v].children| <= n
  }

  lemma PartsMeans(segments: Segments, g: Graph, open: set<Key>, pending: multiset<nat>, k: Key, v: nat)
    requires Building(segments, g, open, pending) && Unitary(k) && SegmentOf(k) in segments
    requires HasParts(g, v, Parts(segments[SegmentOf(k)]), |Parts(segments[SegmentOf(k)])|)
    requires g.nodes[v].mode == OR && g.nodes[v].sets == NOTHING && |Parts(segments[SegmentOf(k)])| > 0
    ensures Acyclic(g.nodes, g.rank) && Means(segments, g.nodes, g.rank, v, k) && Solid(g.nodes[v])
  {
    CoreFacts(g, pending);
    hide Core, ConditionsOk, Acyclic, Eval, Parts;
    var def := segments[SegmentOf(k)];
    var parts := Parts(def);
    assert g.bySets[parts[0]] in g.nodes[v].children;
    forall input ensures Eval(g.nodes, g.rank, v, input) <==> Holds(k, Active(segments, input)) {
      EvalOr(g.nodes, g.rank, v, input);
      UnitaryKey(segments, k, input);
      PartsMet(def, input);
      forall i | 0 <= i < |parts|
        ensures g.bySets[parts[i]] < |g.nodes| && (Eval(g.nodes, g.rank, g.bySets[parts[i]], input) <==> parts[i].MetBy(input))
      {
        EvalLeaf(g.nodes, g.rank, g.bySets[parts[i]], input);
      }
      if SomeMet(parts, input) {
        var i :| 0 <= i < |parts| && parts[i].MetBy(input);
        assert g.bySets[parts[i]] in g.nodes[v].children;
      }
    }
  }

  lemma MorePart(g: Graph, g': Graph, v: nat, parts: seq<SubsetDefinition>, n: nat, c: nat)
    requires HasParts(g, v, parts, n) && n < |parts| && parts[n] in g.bySets && g.bySets[parts[n]] == c
    requires g'.nodes == Linked(g.nodes, v, [c]) && g'.bySets == g.bySets
    ensures HasParts(g', v, parts, n + 1)
  {
    assert ToSet([c]) == {c};
    var children := g.nodes[v].children;
    assert g'.nodes[v].children == children + {c};
    forall x ensures x in g'.nodes[v].children <==> exists i :: 0 <= i < n + 1 && parts[i] in g.bySets && g.bySets[parts[i]] == x {
      if i :| 0 <= i < n + 1 && parts[i] in g.bySets && g.bySets[parts[i]] == x {
      }
    }
  }

  lemma PartsStay(g: Graph, g': Graph, v: nat, parts: seq<SubsetDefinition>, n: nat)
    requires HasParts(g, v, parts, n) && Extends(g, g')
    ensures HasParts(g', v, parts, n)
  {
    assert g'.nodes[v].children == g.nodes[v].children;
    forall i | 0 <= i < n ensures parts[i] in g'.bySets && g'.bySets[parts[i]] == g.bySets[parts[i]] {
    }
  }

  /** The leaf of the next part is a new child. */
  lemma PartIsNew(segments: Segments, g: Graph, open: set<Key>, pending: multiset<nat>, v: nat, d: SubsetDefinition, n: nat)
    requires Building(segments, g, open, pending) && HasParts(g, v, Parts(d), n) && n < |Parts(d)| && Parts(d)[n] in g.bySets
    ensures var c := g.bySets[Parts(d)[n]];
            && c < |g.nodes| == |g.rank| && c !in g.nodes[v].children && Solid(g.nodes[c]) && g.rank[c] == 0
            && forall k' :: k' in open ==> k' in g.byCondition && g.byCondition[k'] != c
  {
    var parts := Parts(d);
    PartsDiffer(d);
    hide Core, Parts, Means, KeyOk, NoParents, Acyclic;
    var c := g.bySets[parts[n]];
    assert !g.nodes[c].sets.Empty();
    assert forall i :: 0 <= i < n && parts[i] in g.bySets ==> g.nodes[g.bySets[parts[i]]].sets == parts[i];
    forall k' | k' in open ensures k' in g.byCondition && g.byCondition[k'] != c {
      assert g.nodes[g.byCondition[k']].sets == NOTHING;
    }
  }

  lemma PartsDiffer(d: SubsetDefinition)
    ensures forall i, j :: 0 <= i < j < |Parts(d)| ==> Parts(d)[i] != Parts(d)[j]
  {
  }

  lemma NoPartsYet(g: Graph, v: nat, parts: seq<SubsetDefinition>)
    requires v < |g.nodes| && g.nodes[v].children == {}
    ensures HasParts(g, v, parts, 0)
  {
  }

  lemma PartsCount(d: SubsetDefinition)
    ensures |Parts(d)| <= 3 && forall i :: 0 <= i < |Parts(d)| ==> Parts(d)[i].NonEmptySets() == 1
  {
  }

  /** One more leaf below v. */
  lemma LinkPart(segments: Segments, g0: Graph, g: Graph, open: set<Key>, pending: multiset<nat>, k: Key, v: nat, d: SubsetDefinition, n: nat, c: nat)
    requires Building(segments, g, open, pending + multiset{c}) && k in open && k in g.byCondition && g.byCondition[k] == v
    requires v < |g.nodes| == |g.rank| && g.rank[v] == 1 && |g0.nodes| <= v && Extends(g0, g)
    requires HasParts(g, v, Parts(d), n) && n < |Parts(d)| && Parts(d)[n] in g.bySets && g.bySets[Parts(d)[n]] == c
    ensures var g' := g.(nodes := Linked(g.nodes, v, [c]));
            Building(segments, g', open, pending) && Extends(g0, g') && HasParts(g', v, Parts(d), n + 1)
  {
    hide Building, Parts, Linked, Extends;
    PartsCount(d);
    PartIsNew(segments, g, open, pending + multiset{c}, v, d, n);
    assert |g.nodes[v].children| < MAX_CHILDREN;
    LinkOne(segments, g, open, k, v, pending, c);
    MorePart(g, g.(nodes := Linked(g.nodes, v, [c])), v, Parts(d), n, c);
    ExtendsPast(g0, g, g.(nodes := Linked(g.nodes, v, [c])), v);
  }

  lemma LinkedOne(nodes: seq<EntryNode>, v: nat, c: nat)
    requires v < |nodes|
    ensures Linked(nodes, v, [c]) == nodes[v := nodes[v].(children := nodes[v].children + {c})]
  {
    assert ToSet([c]) == {c};
  }

  /** With all its leaves and in disjunctive mode the node is done. */
  lemma PartsDone(segments: Segments, g0: Graph, g: Graph, open: set<Key>, pending: multiset<nat>, k: Key, v: nat)
    requires Building(segments, g, open + {k}, pending) && k !in open && k in g.byCondition && g.byCondition[k] == v && v < |g.nodes|
    requires Unitary(k) && SegmentOf(k) in segments && |Parts(segments[SegmentOf(k)])| > 0
    requires HasParts(g, v, Parts(segments[SegmentOf(k)]), |Parts(segments[SegmentOf(k)])|)
    requires |g0.nodes| <= v && Extends(g0, g) && g.nodes[v].sets == NOTHING
    ensures var g' := g.(nodes := g.nodes[v := g.nodes[v].(mode := OR)]);
            Building(segments, g', open, pending) && Extends(g0, g')
  {
    hide Building, Parts, Extends, Solid, Means, Acyclic;
    var g' := g.(nodes := g.nodes[v := g.nodes[v].(mode := OR)]);
    ModeSet(segments, g, open + {k}, k, v, pending, OR);
    ExtendsPast(g0, g, g', v);
    assert HasParts(g', v, Parts(segments[SegmentOf(k)]), |Parts(segments[SegmentOf(k)])|);
    PartsMeans(segments, g', open + {k}, pending, k, v);
    CloseKey(segments, g', open, k, pending);
  }

  // ---------- adding the parts one by one ----------

  /** While the parts of the open condition k are added: its node still has no children. */
  ghost predicate Adding(segments: Segments, g0: Graph, g: Graph, open: set<Key>, pending: multiset<nat>, k: Key, v: nat, mode: ChildMode,
                         parts: seq<Key>, n: nat, ids: seq<nat>)
  {
    && k in g.byCondition && g.byCondition[k] == v && |g0.nodes| <= v < |g.nodes| == |g.rank|
    && g.nodes[v].mode == mode && g.nodes[v].sets == NOTHING && g.nodes[v].children == {}
    && Building(segments, g, open + {k}, pending + multiset(ids)) && Extends(g0, g)
    && FoundChildren(g, parts, n, ids)
  }

  lemma AddingStarts(segments: Segments, g0: Graph, g: Graph, open: set<Key>, pending: multiset<nat>, k: Key, v: nat, mode: ChildMode, parts: seq<Key>)
    requires k in g.byCondition && g.byCondition[k] == v && |g0.nodes| <= v < |g.nodes| == |g.rank|
    requires g.nodes[v].sets == NOTHING && g.nodes[v].children == {}
    requires Building(segments, g, open + {k}, pending) && Extends(g0, g)
    ensures Adding(segments, g0, g.(nodes := g.nodes[v := g.nodes[v].(mode := mode)]), open, pending, k, v, mode, parts, 0, [])
  {
    hide Building, Extends;
    ModeSet(segments, g, open + {k}, k, v, pending, mode);
    ExtendsPast(g0, g, g.(nodes := g.nodes[v := g.nodes[v].(mode := mode)]), v);
    assert pending + multiset([]) == pending;
  }

  lemma AddingNext(segments: Segments, g0: Graph, g: Graph, g': Graph, open: set<Key>, pending: multiset<nat>, k: Key, v: nat, mode: ChildMode,
                   parts: seq<Key>, n: nat, ids: seq<nat>, id: nat)
    requires Adding(segments, g0, g, open, pending, k, v, mode, parts, n, ids) && n < |parts|
    requires Building(segments, g', open + {k}, pending + multiset(ids) + multiset{id}) && Extends(g, g')
    requires parts[n] in g'.byCondition && g'.byCondition[parts[n]] == id
    ensures Adding(segments, g0, g', open, pending, k, v, mode, parts, n + 1, ids + [id])
  {
    hide Building;
    FoundStays(g, g', parts, n, ids);
    FoundMore(g', parts, n, ids, id);
    assert pending + multiset(ids) + multiset{id} == pending + multiset(ids + [id]);
    ExtendsCompose(g0, g, g');
  }

  /** All parts have been added: their nodes can become children. */
  lemma AddingEnds(segments: Segments, g0: Graph, g: Graph, open: set<Key>, pending: multiset<nat>, k: Key, v: nat, mode: ChildMode,
                   parts: seq<Key>, ids: seq<nat>)
    returns (bound: nat)
    requires Adding(segments, g0, g, open, pending, k, v, mode, parts, |parts|, ids) && GoodParts(parts, open + {k})
    ensures Building(segments, g, open + {k}, pending + multiset(ids)) && k in g.byCondition && v == g.byCondition[k] && v < |g.nodes| == |g.rank|
    ensures g.nodes[v].mode == mode && g.nodes[v].children == {} && g.nodes[v].sets == NOTHING && open + {k} <= g.byCondition.Keys
    ensures Linkable(g, v, ids, bound) && g.rank[v] <= bound && |ids| == |parts|
    ensures forall i :: 0 <= i < |ids| ==> ids[i] < |g.nodes| && Solid(g.nodes[ids[i]])
    ensures forall i, k' :: 0 <= i < |ids| && k' in open + {k} && k' in g.byCondition ==> ids[i] != g.byCondition[k']
  {
    hide Building, Linkable, Solid;
    bound := FoundLinkable(segments, g, open + {k}, pending + multiset(ids), k, parts, ids);
  }

  /** The node has its children: it means its condition, and the condition is done. */
  lemma Combined(segments: Segments, g0: Graph, g: Graph, g': Graph, open: set<Key>, pending: multiset<nat>, k: Key, v: nat, mode: ChildMode,
                 parts: seq<Key>, s: seq<nat>, ids: seq<nat>)
    requires Adding(segments, g0, g, open, pending, k, v, mode, parts, |parts|, ids) && GoodParts(parts, open + {k}) && k !in open
    requires Building(segments, g', open + {k}, pending) && ExtendsBut(g, g', v) && Combines(g'.nodes, g'.rank, v, mode, ids)
    requires v < |g'.nodes| && (ids != [] ==> g'.nodes[v].children != {})
    requires if mode == AND then parts == GroupKeys(k) && (k != [] ==> ids != [])
             else mode == OR && parts == SegmentKeys(s) && |k| == 1 && ids != [] && forall x :: x in s <==> x in k[0]
    ensures Building(segments, g', open, pending) && Extends(g0, g')
  {
    hide Building, Combines, GoodParts, Extends, Means, Acyclic, ExtendsBut;
    ExtendsPast(g0, g, g', v);
    SameConditions(g, g', v);
    if mode == AND {
      AndMeans(segments, g', open + {k}, pending, k, v, ids);
    } else {
      OrMeans(segments, g', open + {k}, pending, k, v, s, ids);
    }
    CloseKey(segments, g', open, k, pending);
  }

  lemma SameConditions(g: Graph, g': Graph, v: nat)
    requires ExtendsBut(g, g', v)
    ensures g'.byCondition == g.byCondition
  {
  }

  // ---------- the parts of a condition ----------

  /** The groups are not empty and name known segments. */
  ghost predicate GroupsIn(segments: Segments, groups: seq<Group>) {
    forall i :: 0 <= i < |groups| ==> groups[i] != {} && groups[i] <= segments.Keys
  }

  lemma AlternativesOk(segments: Segments, k: Key, open: set<Key>, s: seq<nat>)
    requires KeyOk(segments, k) && |k| == 1 && |k[0]| > 1 && Above(open, 1) && s == ToVector(k[0])
    ensures GoodParts(SegmentKeys(s), open + {k}) && |SegmentKeys(s)| == |s| && s != [] && forall x :: x in s <==> x in k[0]
    ensures forall i :: 0 <= i < |s| ==>
              var c := ExclusiveSegment(s[i], 0);
              GroupsIn(segments, c.groups) && Above(open + {k}, Level(c.groups)) && Level(c.groups) == 0
              && c.groups == [{s[i]}] == SegmentKeys(s)[i]
  {
    assert forall x :: x in s <==> x in k[0];
    assert |s| == |k[0]|;
    hide ToVector, GoodParts;
    SegmentKeysGood(s, open + {k});
    forall i | 0 <= i < |s|
      ensures var c := ExclusiveSegment(s[i], 0);
              GroupsIn(segments, c.groups) && Above(open + {k}, Level(c.groups)) && Level(c.groups) == 0
              && c.groups == [{s[i]}] == SegmentKeys(s)[i]
    {
      assert s[i] in s;
      AlternativeOk(segments, k, open, s[i]);
    }
  }

  lemma AlternativeOk(segments: Segments, k: Key, open: set<Key>, x: nat)
    requires KeyOk(segments, k) && |k| == 1 && |k[0]| > 1 && Above(open, 1) && x in k[0]
    ensures var c := ExclusiveSegment(x, 0);
            GroupsIn(segments, c.groups) && Above(open + {k}, Level(c.groups)) && Level(c.groups) == 0 && c.groups == [{x}]
  {
    hide Canonical;
  }

  lemma GroupsOk(segments: Segments, k: Key, open: set<Key>)
    requires KeyOk(segments, k) && |k| != 1 && Above(open, 2)
    ensures GoodParts(GroupKeys(k), open + {k}) && |GroupKeys(k)| == |k|
    ensures forall i :: 0 <= i < |k| ==>
              var c := OrSegments(k[i], 0, false);
              GroupsIn(segments, c.groups) && Above(open + {k}, Level(c.groups)) && Level(c.groups) <= 1
              && c.groups == [k[i]] == GroupKeys(k)[i]
  {
    GroupKeysGood(k, open + {k});
  }

  lemma NormalizedFacts(segments: Segments, groups: seq<Group>, k: Key, open: set<Key>)
    requires Simplified(groups, k) && GroupsIn(segments, groups) && Above(open, Level(groups))
    ensures KeyOk(segments, k) && k !in open && Level(k) <= Level(groups) <= 2 && Above(open, Level(k))
    ensures Unitary(k) ==> SegmentOf(k) in segments && Level(k) == 0
    ensures |k| == 1 && !Unitary(k) ==> Level(k) == 1 && |k[0]| > 1
    ensures |k| != 1 ==> Level(k) == 2
    ensures Canonical(k)
  {
    NormalizedLevel(groups, k);
    NormalizedKeyOk(segments, groups, k);
  }

  lemma IsPureWhen(segments: Segments, k: Key)
    ensures PureKey(segments, k) <==> Unitary(k) && SegmentOf(k) in segments && segments[SegmentOf(k)].NonEmptySets() == 1
    ensures SegmentsOk(segments) && Unitary(k) && SegmentOf(k) in segments ==> !segments[SegmentOf(k)].Empty()
  {
  }

  lemma AddingFacts(segments: Segments, g0: Graph, g: Graph, open: set<Key>, pending: multiset<nat>, k: Key, v: nat, mode: ChildMode,
                    parts: seq<Key>, n: nat, ids: seq<nat>)
    requires Adding(segments, g0, g, open, pending, k, v, mode, parts, n, ids)
    ensures Building(segments, g, open + {k}, pending + multiset(ids))
    ensures k in g.byCondition && g.byCondition[k] == v && v < |g.nodes| == |g.rank| && |ids| == n
  {
    hide Building;
  }

  // ---------- all the conditions ----------

  ghost function RootsOf(patchMappings: map<Key, seq<nat>>, byCondition: map<Key, nat>): set<nat> {
    set k | k in patchMappings && k in byCondition :: byCondition[k]
  }

  /** The edge that was promised for a new top level condition makes its node a root. */
  lemma BecomesRoot(segments: Segments, g: Graph, patchMappings: map<Key, seq<nat>>, k: Key, patches: seq<nat>)
    requires k in g.byCondition && k !in patchMappings && patchMappings.Keys <= g.byCondition.Keys
    requires Building(segments, g, {}, multiset{g.byCondition[k]}) && g.roots == RootsOf(patchMappings, g.byCondition)
    ensures Building(segments, g.(roots := RootsOf(patchMappings[k := patches], g.byCondition)), {}, multiset{})
  {
    BuildingParts(segments, g, {}, multiset{g.byCondition[k]});
    hide Core, Acyclic;
    var v := g.byCondition[k];
    var roots' := RootsOf(patchMappings[k := patches], g.byCondition);
    assert roots' == g.roots + {v};
    assert v !in g.roots;
    RootCore(g, v);
    ConditionsSame(segments, g, g.(roots := roots'), {});
  }

  lemma RootCore(g: Graph, v: nat)
    requires Core(g, multiset{v}) && v !in g.roots
    ensures Core(g.(roots := g.roots + {v}), multiset{})
  {
    forall x: nat | x < |g.nodes|
      ensures g.counts[x] == InDegree(g.nodes, g.counts, x) + (if x in g.roots + {v} then 1 else 0) + multiset{}[x]
    {
      assert g.counts[x] == InDegree(g.nodes, g.counts, x) + (if x in g.roots then 1 else 0) + multiset{v}[x];
    }
    assert v in multiset{v};
  }

  /** With all conditions added the graph is well formed, and each condition has its own root that means it. */
  lemma AllBuilt(segments: Segments, g: Graph, patchMappings: map<Key, seq<nat>>)
    requires Building(segments, g, {}, multiset{}) && patchMappings.Keys <= g.byCondition.Keys
    requires g.roots == RootsOf(patchMappings, g.byCondition)
    ensures WellFormed(g.nodes, g.counts, g.rank, g.roots) && Acyclic(g.nodes, g.rank)
    ensures forall k :: k in g.byCondition ==> g.byCondition[k] < |g.nodes| && Means(segments, g.nodes, g.rank, g.byCondition[k], k)
    ensures forall k, k' :: k in g.byCondition && k' in g.byCondition && g.byCondition[k] == g.byCondition[k'] ==> k == k'
  {
    CoreFacts(g, multiset{});
    CoreIsWellFormed(g);
    hide Core, Means, WellFormed;
  }

  lemma CoreIsWellFormed(g: Graph)
    requires Core(g, multiset{})
    ensures WellFormed(g.nodes, g.counts, g.rank, g.roots)
  {
  }

  /** Conditions with the same normal form say the same, and only those. */
  lemma SameKeySameFunction(a: seq<Group>, b: seq<Group>, k: Key, k': Key)
    requires Simplified(a, k) && Simplified(b, k')
    ensures SameFunction(a, b) <==> k == k'
  {
    assert SameFunction(a, k) by {
      forall active ensures Holds(a, active) <==> Holds(k, active) { SimplifiedHolds(a, k, active); }
    }
    assert SameFunction(b, k') by {
      forall active ensures Holds(b, active) <==> Holds(k', active) { SimplifiedHolds(b, k', active); }
    }
    CanonicalUnique(k, k');
    hide Holds;
    if SameFunction(a, b) {
      forall active ensures Holds(k, active) <==> Holds(k', active) {
        assert Holds(a, active) <==> Holds(k, active);
        assert Holds(a, active) <==> Holds(b, active);
      }
    }
    if k == k' {
      forall active ensures Holds(a, active) <==> Holds(b, active) {
        assert Holds(a, active) <==> Holds(k, active);
        assert Holds(b, active) <==> Holds(k', active);
      }
    }
  }

  /** The first n conditions have been added: each key has the patches and the encoding of its condition. */
  ghost predicate Added(segments: Segments, conditions: seq<ActivationCondition>, keys: seq<Key>, n: nat, g: Graph,
                        patchMappings: map<Key, seq<nat>>, patchEncodings: map<Key, PatchEncoding>)
  {
    && n == |keys| <= |conditions|
    && Building(segments, g, {}, multiset{}) && patchMappings.Keys <= g.byCondition.Keys
    && g.roots == RootsOf(patchMappings, g.byCondition)
    && (forall k :: k in patchMappings <==> k in keys)
    && (forall i, j :: 0 <= i < j < n ==> keys[i] != keys[j])
    && forall i :: 0 <= i < n ==> Carries(conditions[i], keys[i], patchMappings, patchEncodings)
  }

  ghost predicate Carries(condition: ActivationCondition, k: Key, patchMappings: map<Key, seq<nat>>, patchEncodings: map<Key, PatchEncoding>) {
    && Simplified(condition.groups, k)
    && k in patchMappings && patchMappings[k] == condition.activated
    && k in patchEncodings && patchEncodings[k] == condition.encoding
  }

  lemma NothingAdded(segments: Segments, conditions: seq<ActivationCondition>)
    ensures Added(segments, conditions, [], 0, Graph([], [], [], map[], map[], {}), map[], map[])
  {
  }

  lemma NotYetAdded(segments: Segments, conditions: seq<ActivationCondition>, keys: seq<Key>, n: nat, g: Graph,
                    patchMappings: map<Key, seq<nat>>, patchEncodings: map<Key, PatchEncoding>, k: Key)
    requires Added(segments, conditions, keys, n, g, patchMappings, patchEncodings) && k !in patchMappings
    ensures k !in keys
  {
    hide Building, Carries;
  }

  lemma AddedNext(segments: Segments, conditions: seq<ActivationCondition>, keys: seq<Key>, n: nat, g: Graph, g': Graph,
                  patchMappings: map<Key, seq<nat>>, patchEncodings: map<Key, PatchEncoding>, k: Key)
    requires Added(segments, conditions, keys, n, g, patchMappings, patchEncodings) && n < |conditions|
    requires k in g'.byCondition && Building(segments, g', {}, multiset{} + multiset{g'.byCondition[k]}) && Extends(g, g')
    requires g'.roots == RootsOf(patchMappings, g'.byCondition) && patchMappings.Keys <= g'.byCondition.Keys
    requires Simplified(conditions[n].groups, k) && k !in patchMappings
    ensures var patchMappings' := patchMappings[k := conditions[n].activated];
            Added(segments, conditions, keys + [k], n + 1, g'.(roots := RootsOf(patchMappings', g'.byCondition)),
                  patchMappings', patchEncodings[k := conditions[n].encoding])
  {
    hide Building, Simplified, Extends, RootsOf;
    assert multiset{} + multiset{g'.byCondition[k]} == multiset{g'.byCondition[k]};
    BecomesRoot(segments, g', patchMappings, k, conditions[n].activated);
    forall i | 0 <= i < n ensures keys[i] != k {
      assert keys[i] in keys;
    }
    var patchMappings', patchEncodings' := patchMappings[k := conditions[n].activated], patchEncodings[k := conditions[n].encoding];
    forall i | 0 <= i < n + 1 ensures Carries(conditions[i], (keys + [k])[i], patchMappings', patchEncodings') {
      if i < n {
        assert Carries(conditions[i], keys[i], patchMappings, patchEncodings);
      }
    }
    forall x ensures x in patchMappings' <==> x in keys + [k] {
      assert x in keys + [k] <==> x in keys || x == k;
    }
  }

  lemma SameNormalForm(groups: seq<Group>, k: Key, k': Key)
    requires Simplified(groups, k) && Simplified(groups, k')
    ensures k == k'
  {
    SortedUnique(k, k');
  }

  /** A condition whose key is taken says the same as an earlier one. */
  lemma KeyTaken(segments: Segments, conditions: seq<ActivationCondition>, keys: seq<Key>, n: nat, g: Graph,
                 patchMappings: map<Key, seq<nat>>, patchEncodings: map<Key, PatchEncoding>, k: Key)
    requires Added(segments, conditions, keys, n, g, patchMappings, patchEncodings) && n < |conditions|
    requires Simplified(conditions[n].groups, k) && k in patchMappings
    ensures exists i, j :: 0 <= i < j < |conditions| && SameFunction(conditions[i].groups, conditions[j].groups)
  {
    hide Building, Simplified;
    var i :| 0 <= i < n && keys[i] == k;
    assert Carries(conditions[i], keys[i], patchMappings, patchEncodings);
    SameKeySameFunction(conditions[i].groups, conditions[n].groups, k, k);
  }

  lemma AllDifferent(segments: Segments, conditions: seq<ActivationCondition>, keys: seq<Key>, g: Graph,
                     patchMappings: map<Key, seq<nat>>, patchEncodings: map<Key, PatchEncoding>)
    requires Added(segments, conditions, keys, |conditions|, g, patchMappings, patchEncodings)
    ensures forall i, j :: 0 <= i < j < |conditions| ==> !SameFunction(conditions[i].groups, conditions[j].groups)
  {
    hide Building, Simplified, SameFunction;
    forall i, j | 0 <= i < j < |conditions| ensures !SameFunction(conditions[i].groups, conditions[j].groups) {
      assert Carries(conditions[i], keys[i], patchMappings, patchEncodings);
      assert Carries(conditions[j], keys[j], patchMappings, patchEncodings);
      SameKeySameFunction(conditions[i].groups, conditions[j].groups, keys[i], keys[j]);
    }
  }
}
