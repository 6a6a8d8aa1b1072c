/** The entry list of a patch map, and how a graph is written as one. */
module EntryEmission {
  import opened IntSets
  import opened SubsetDefinitions
  import opened SegmentGroups
  import opened ActivationConditions
  import opened EntryNodes
  import opened EntryGraphs
  import opened EntrySort
  import opened EntryBuilding
  import opened EntryCompilation

  datatype Entry = Entry(coverage: SubsetDefinition, childIndices: set<nat>, conjunctive: bool, ignored: bool,
                         patchIndices: seq<nat>, encoding: PatchEncoding)

  /** Entries refer to earlier entries only. */
  ghost predicate Backwards(entries: seq<Entry>) {
    forall e, c {:trigger c in entries[e].childIndices} :: 0 <= e < |entries| && c in entries[e].childIndices ==> c < e
  }

  /** An entry matches as the client decides it: all its sets that are not empty intersect the input, and all of its
      children match in conjunctive mode, some otherwise. */
  ghost predicate Matches(entries: seq<Entry>, e: nat, input: SubsetDefinition)
    requires Backwards(entries) && e < |entries|
    decreases e
  {
    && entries[e].coverage.MatchedBy(input)
    && (entries[e].childIndices == {}
        || if entries[e].conjunctive then forall c :: c in entries[e].childIndices ==> Matches(entries, c, input)
           else exists c :: c in entries[e].childIndices && Matches(entries, c, input))
  }

  lemma {:induction false} MatchesPrefix(entries: seq<Entry>, more: Entry, e: nat, input: SubsetDefinition)
    requires Backwards(entries) && Backwards(entries + [more]) && e < |entries|
    ensures Matches(entries + [more], e, input) == Matches(entries, e, input)
    decreases e
  {
    assert (entries + [more])[e] == entries[e];
    forall c | c in entries[e].childIndices ensures Matches(entries + [more], c, input) == Matches(entries, c, input) {
      MatchesPrefix(entries, more, c, input);
    }
  }

  ghost predicate IsEmitted(nodes: seq<EntryNode>, index: map<nat, nat>, entries: seq<Entry>, x: nat)
    requires x < |nodes|
  {
    && x in index && index[x] < |entries|
    && var entry := entries[index[x]];
       && entry.coverage == nodes[x].sets && entry.conjunctive == (nodes[x].mode == AND)
       && (forall c :: c in nodes[x].children ==> c in index)
       && entry.childIndices == set c | c in nodes[x].children && c in index :: index[c]
  }

  /** The entries so far stand for the live nodes in `emitted`, in this order. */
  ghost predicate Emitted(nodes: seq<EntryNode>, index: map<nat, nat>, entries: seq<Entry>, emitted: seq<nat>) {
    && |emitted| == |entries| && Backwards(entries)
    && (forall e :: 0 <= e < |emitted| ==> emitted[e] < |nodes| && emitted[e] in index && index[emitted[e]] == e)
    && (forall x :: x in index ==> x in emitted)
    && (forall e :: 0 <= e < |emitted| ==> IsEmitted(nodes, index, entries, emitted[e]))
  }

  /** Every entry matches what its node matches. */
  ghost predicate Faithful(nodes: seq<EntryNode>, rank: seq<nat>, entries: seq<Entry>, emitted: seq<nat>)
    requires Acyclic(nodes, rank) && Backwards(entries) && |emitted| == |entries|
  {
    forall e, input :: 0 <= e < |entries| && emitted[e] < |nodes| ==>
      (Matches(entries, e, input) <==> Eval(nodes, rank, emitted[e], input))
  }

  /** One node more: its children have been emitted, so its entry refers backwards. */
  lemma EmitNode(nodes: seq<EntryNode>, index: map<nat, nat>, entries: seq<Entry>, emitted: seq<nat>, x: nat, entry: Entry)
    requires Emitted(nodes, index, entries, emitted) && x < |nodes| && x !in index && x !in nodes[x].children
    requires forall c :: c in nodes[x].children ==> c in index
    requires entry.coverage == nodes[x].sets && entry.conjunctive == (nodes[x].mode == AND)
    requires entry.childIndices == set c | c in nodes[x].children && c in index :: index[c]
    ensures Emitted(nodes, index[x := |entries|], entries + [entry], emitted + [x])
  {
    var index', entries', emitted' := index[x := |entries|], entries + [entry], emitted + [x];
    IndexBelow(nodes, index, entries, emitted);
    forall e, c | 0 <= e < |entries'| && c in entries'[e].childIndices ensures c < e {
      if e < |entries| {
        assert c in entries[e].childIndices;
      }
    }
    forall e | 0 <= e < |emitted'|
      ensures emitted'[e] < |nodes| && emitted'[e] in index' && index'[emitted'[e]] == e && IsEmitted(nodes, index', entries', emitted'[e])
    {
      if e < |emitted| {
        var y := emitted[e];
        assert IsEmitted(nodes, index, entries, y);
        assert y != x;
        assert x !in nodes[y].children;
        SameIndices(nodes[y].children, index, x, |entries|);
      } else {
        SameIndices(nodes[x].children, index, x, |entries|);
      }
    }
  }

  lemma SameIndices(children: set<nat>, index: map<nat, nat>, x: nat, e: nat)
    requires x !in children
    ensures (set c | c in children && c in index[x := e] :: index[x := e][c]) == set c | c in children && c in index :: index[c]
  {
    var a, b := set c | c in children && c in index[x := e] :: index[x := e][c], set c | c in children && c in index :: index[c];
    forall y ensures y in a <==> y in b {
      if y in a {
        var c :| c in children && c in index[x := e] && index[x := e][c] == y;
        assert c in index && index[c] == y;
      }
      if y in b {
        var c :| c in children && c in index && index[c] == y;
        assert c in index[x := e] && index[x := e][c] == y;
      }
    }
  }

  lemma IndexBelow(nodes: seq<EntryNode>, index: map<nat, nat>, entries: seq<Entry>, emitted: seq<nat>)
    requires Emitted(nodes, index, entries, emitted)
    ensures forall y :: y in index ==> index[y] < |entries| && y < |nodes|
    ensures forall y, y' :: y in index && y' in index && index[y] == index[y'] ==> y == y'
  {
    forall y | y in index ensures index[y] < |entries| && emitted[index[y]] == y && y < |nodes| {
      var e :| 0 <= e < |emitted| && emitted[e] == y;
    }
  }

  lemma EmitFaithful(nodes: seq<EntryNode>, rank: seq<nat>, index: map<nat, nat>, entries: seq<Entry>, emitted: seq<nat>, x: nat, entry: Entry)
    requires Acyclic(nodes, rank) && Emitted(nodes, index, entries, emitted) && Faithful(nodes, rank, entries, emitted)
    requires x < |nodes| && x !in index && forall c :: c in nodes[x].children ==> c in index
    requires entry.coverage == nodes[x].sets && entry.conjunctive == (nodes[x].mode == AND)
    requires entry.childIndices == set c | c in nodes[x].children && c in index :: index[c]
    requires Emitted(nodes, index[x := |entries|], entries + [entry], emitted + [x])
    ensures Faithful(nodes, rank, entries + [entry], emitted + [x])
  {
    var entries', emitted' := entries + [entry], emitted + [x];
    forall e, input | 0 <= e < |entries'| && emitted'[e] < |nodes|
      ensures Matches(entries', e, input) <==> Eval(nodes, rank, emitted'[e], input)
    {
      if e < |entries| {
        MatchesPrefix(entries, entry, e, input);
      } else {
        NewEntryMatches(nodes, rank, index, entries, emitted, x, entry, input);
      }
    }
  }

  lemma NewEntryMatches(nodes: seq<EntryNode>, rank: seq<nat>, index: map<nat, nat>, entries: seq<Entry>, emitted: seq<nat>, x: nat, entry: Entry,
                        input: SubsetDefinition)
    requires Acyclic(nodes, rank) && Emitted(nodes, index, entries, emitted) && Faithful(nodes, rank, entries, emitted)
    requires x < |nodes| && x !in index && forall c :: c in nodes[x].children ==> c in index
    requires entry.coverage == nodes[x].sets && entry.conjunctive == (nodes[x].mode == AND)
    requires entry.childIndices == set c | c in nodes[x].children && c in index :: index[c]
    requires Backwards(entries + [entry])
    ensures Matches(entries + [entry], |entries|, input) <==> Eval(nodes, rank, x, input)
  {
    hide Emitted, Faithful, Acyclic, IsEmitted, Matches, Eval;
    var entries' := entries + [entry];
    forall c | c in nodes[x].children
      ensures c < |nodes| && index[c] in entry.childIndices && index[c] < |entries|
      ensures Matches(entries', index[c], input) <==> Eval(nodes, rank, c, input)
    {
      EmittedChild(nodes, rank, index, entries, emitted, entry, c, input);
    }
    UnfoldEntry(nodes, rank, index, entries', |entries|, x, input);
  }

  lemma EmittedChild(nodes: seq<EntryNode>, rank: seq<nat>, index: map<nat, nat>, entries: seq<Entry>, emitted: seq<nat>, entry: Entry,
                     c: nat, input: SubsetDefinition)
    requires Acyclic(nodes, rank) && Emitted(nodes, index, entries, emitted) && Faithful(nodes, rank, entries, emitted)
    requires c in index && Backwards(entries + [entry])
    ensures c < |nodes| && index[c] < |entries|
    ensures Matches(entries + [entry], index[c], input) <==> Eval(nodes, rank, c, input)
  {
    hide Acyclic, IsEmitted, Eval;
    IndexBelow(nodes, index, entries, emitted);
    var e :| 0 <= e < |emitted| && emitted[e] == c;
    MatchesPrefix(entries, entry, e, input);
  }

  /** One step of both meanings. */
  lemma UnfoldEntry(nodes: seq<EntryNode>, rank: seq<nat>, index: map<nat, nat>, entries: seq<Entry>, e: nat, x: nat, input: SubsetDefinition)
    requires Acyclic(nodes, rank) && Backwards(entries) && e < |entries| && x < |nodes|
    requires entries[e].coverage == nodes[x].sets && entries[e].conjunctive == (nodes[x].mode == AND)
    requires entries[e].childIndices == set c | c in nodes[x].children && c in index :: index[c]
    requires forall c :: c in nodes[x].children ==> c in index && index[c] in entries[e].childIndices && c < |nodes|
    requires forall c :: c in nodes[x].children ==> index[c] < |entries| && (Matches(entries, index[c], input) <==> Eval(nodes, rank, c, input))
    ensures Matches(entries, e, input) <==> Eval(nodes, rank, x, input)
  {
    var indices := entries[e].childIndices;
    assert indices == {} <==> nodes[x].children == {} by {
      if nodes[x].children != {} {
        var c :| c in nodes[x].children;
        assert index[c] in indices;
      }
    }
    hide Acyclic, Backwards;
    if nodes[x].mode == AND {
      if forall c :: c in indices ==> Matches(entries, c, input) {
        forall c | c in nodes[x].children ensures Eval(nodes, rank, c, input) {
          assert index[c] in indices;
        }
      }
    } else {
      if c :| c in nodes[x].children && Eval(nodes, rank, c, input) {
        assert index[c] in indices && Matches(entries, index[c], input);
      }
    }
  }

  // ---------- the order of emission ----------

  /** In reverse topological order all children of a node come before it. */
  lemma ChildrenEmitted(nodes: seq<EntryNode>, rank: seq<nat>, sorted: seq<nat>, i: nat, c: nat)
    requires Acyclic(nodes, rank) && Topological(nodes, sorted) && i < |sorted| && c in nodes[sorted[i]].children
    ensures c in sorted[i + 1..] && c != sorted[i]
  {
    assert c in sorted;
    var j :| 0 <= j < |sorted| && sorted[j] == c;
    assert ParentsIn(nodes, sorted[j], sorted[..j]);
    assert sorted[i] in sorted[..j];
    var m :| 0 <= m < j && sorted[..j][m] == sorted[i];
    assert m == i;
    assert sorted[i + 1..][j - i - 1] == c;
  }

  /** Nodes of conditions carry the patches and the encoding of their condition; the others are ignored. */
  ghost predicate Labelled(entries: seq<Entry>, emitted: seq<nat>, conditionOf: map<nat, Key>, patchMappings: map<Key, seq<nat>>,
                           patchEncodings: map<Key, PatchEncoding>)
  {
    |entries| == |emitted| &&
    forall e :: 0 <= e < |entries| ==>
      if emitted[e] in conditionOf then
        var k := conditionOf[emitted[e]];
        && !entries[e].ignored && k in patchMappings && entries[e].patchIndices == patchMappings[k]
        && k in patchEncodings && entries[e].encoding == patchEncodings[k]
      else entries[e].ignored && entries[e].patchIndices == [LastPatchId(entries[..e]) + 1]
  }

  /** The last patch id that the entries name. */
  ghost function LastPatchId(entries: seq<Entry>): nat {
    if entries == [] then 0
    else
      var patches := entries[|entries| - 1].patchIndices;
      if patches != [] then patches[|patches| - 1] else LastPatchId(entries[..|entries| - 1])
  }

  lemma LabelNext(entries: seq<Entry>, emitted: seq<nat>, conditionOf: map<nat, Key>, patchMappings: map<Key, seq<nat>>,
                  patchEncodings: map<Key, PatchEncoding>, x: nat, entry: Entry)
    requires Labelled(entries, emitted, conditionOf, patchMappings, patchEncodings)
    requires if x in conditionOf then
               var k := conditionOf[x];
               && !entry.ignored && k in patchMappings && entry.patchIndices == patchMappings[k]
               && k in patchEncodings && entry.encoding == patchEncodings[k]
             else entry.ignored && entry.patchIndices == [LastPatchId(entries) + 1]
    ensures Labelled(entries + [entry], emitted + [x], conditionOf, patchMappings, patchEncodings)
    ensures LastPatchId(entries + [entry]) ==
            if entry.patchIndices != [] then entry.patchIndices[|entry.patchIndices| - 1] else LastPatchId(entries)
  {
    hide LastPatchId;
    var entries' := entries + [entry];
    assert entries'[..|entries|] == entries;
    forall e | 0 <= e < |entries| ensures entries'[..e] == entries[..e] && entries'[e] == entries[e] && (emitted + [x])[e] == emitted[e] {
    }
    LastOfMore(entries, entry);
  }

  lemma LastOfMore(entries: seq<Entry>, entry: Entry)
    ensures LastPatchId(entries + [entry]) ==
            if entry.patchIndices != [] then entry.patchIndices[|entry.patchIndices| - 1] else LastPatchId(entries)
  {
    assert (entries + [entry])[..|entries|] == entries;
  }

  /** Exactly the nodes of top level conditions, each with its condition. */
  ghost predicate IsConditionOf(conditionOf: map<nat, Key>, byCondition: map<Key, nat>, done: set<Key>) {
    && (forall k :: k in done && k in byCondition ==> byCondition[k] in conditionOf && conditionOf[byCondition[k]] == k)
    && forall x :: x in conditionOf ==> conditionOf[x] in done && conditionOf[x] in byCondition && byCondition[conditionOf[x]] == x
  }

  /** The live nodes from position i on have been emitted, and no others. */
  ghost predicate EmittedFrom(sorted: seq<nat>, counts: seq<nat>, i: nat, index: map<nat, nat>) {
    && i <= |sorted| && (forall j :: 0 <= j < |sorted| ==> sorted[j] < |counts|)
    && (forall j :: i <= j < |sorted| ==> (sorted[j] in index <==> counts[sorted[j]] > 0))
    && forall x :: x in index ==> x in sorted[i..]
  }

  lemma EmittedBefore(sorted: seq<nat>, counts: seq<nat>, i: nat, index: map<nat, nat>, nodes: seq<EntryNode>, e: nat)
    requires i < |sorted| && EmittedFrom(sorted, counts, i + 1, index) && Topological(nodes, sorted)
    ensures sorted[i] !in index
    ensures counts[sorted[i]] == 0 ==> EmittedFrom(sorted, counts, i, index)
    ensures counts[sorted[i]] > 0 ==> EmittedFrom(sorted, counts, i, index[sorted[i] := e])
  {
    assert sorted[i..] == [sorted[i]] + sorted[i + 1..];
    assert sorted[i] !in sorted[i + 1..];
  }

  /** All children of a live node have been emitted when its turn comes. */
  lemma ReadyToEmit(nodes: seq<EntryNode>, counts: seq<nat>, rank: seq<nat>, roots: set<nat>, sorted: seq<nat>, i: nat, index: map<nat, nat>)
    requires Consistent(nodes, counts, rank, roots, multiset{}) && Topological(nodes, sorted) && i < |sorted|
    requires EmittedFrom(sorted, counts, i + 1, index)
    ensures forall c :: c in nodes[sorted[i]].children ==> c in index && c != sorted[i]
  {
    ParentsAreLive(nodes, counts, rank, roots, multiset{}, sorted[i]);
    forall c | c in nodes[sorted[i]].children ensures c in index && c != sorted[i] {
      ChildrenEmitted(nodes, rank, sorted, i, c);
      var j :| 0 <= j < |sorted[i + 1..]| && sorted[i + 1..][j] == c;
      assert sorted[i + 1 + j] == c;
    }
  }

  /** The entry has the patches and the encoding of the condition and matches when the condition holds. */
  ghost predicate EntryRepresents(segments: Segments, condition: ActivationCondition, entries: seq<Entry>, e: nat)
    requires Backwards(entries)
  {
    && e < |entries| && !entries[e].ignored
    && entries[e].patchIndices == condition.activated && entries[e].encoding == condition.encoding
    && forall input :: Matches(entries, e, input) <==> Holds(condition.groups, Active(segments, input))
  }

  /** What the emitted list promises for the conditions: entry at[i] stands for condition i. */
  ghost predicate Represents(segments: Segments, conditions: seq<ActivationCondition>, entries: seq<Entry>, at: seq<nat>) {
    && Backwards(entries) && |at| == |conditions|
    && (forall i :: 0 <= i < |at| ==> EntryRepresents(segments, conditions[i], entries, at[i]))
    && (forall i, j :: 0 <= i < j < |at| ==> at[i] != at[j])
    && (forall e :: 0 <= e < |entries| && !entries[e].ignored ==> e in at)
    && forall e :: 0 <= e < |entries| ==> |entries[e].childIndices| <= MAX_CHILDREN
  }

  lemma ImageSize(s: set<nat>, index: map<nat, nat>)
    requires forall c :: c in s ==> c in index
    ensures |set c | c in s && c in index :: index[c]| <= |s|
  {
    var image := set c | c in s && c in index :: index[c];
    if s == {} {
      assert image == {};
    } else {
      var x :| x in s;
      ImageSize(s - {x}, index);
      assert image == (set c | c in s - {x} && c in index :: index[c]) + {index[x]};
    }
  }

  /** The entry list once all live nodes have been emitted. */
  lemma ListRepresents(segments: Segments, conditions: seq<ActivationCondition>, keys: seq<Key>, nodes: seq<EntryNode>, counts: seq<nat>,
                       rank: seq<nat>, byCondition: map<Key, nat>, patchMappings: map<Key, seq<nat>>, patchEncodings: map<Key, PatchEncoding>,
                       conditionOf: map<nat, Key>, sorted: seq<nat>, index: map<nat, nat>, entries: seq<Entry>, emitted: seq<nat>)
    returns (at: seq<nat>)
    requires WellFormed(nodes, counts, rank, RootsOf(patchMappings, byCondition)) && Acyclic(nodes, rank)
    requires |keys| == |conditions| && (forall k :: k in patchMappings <==> k in keys) && patchMappings.Keys <= byCondition.Keys
    requires forall i, j :: 0 <= i < j < |keys| ==> keys[i] != keys[j]
    requires forall i :: 0 <= i < |keys| ==> Carries(conditions[i], keys[i], patchMappings, patchEncodings)
    requires forall k :: k in patchMappings ==> byCondition[k] < |nodes| && Means(segments, nodes, rank, byCondition[k], k)
    requires IsConditionOf(conditionOf, byCondition, patchMappings.Keys)
    requires Topological(nodes, sorted) && EmittedFrom(sorted, counts, 0, index)
    requires Emitted(nodes, index, entries, emitted) && Faithful(nodes, rank, entries, emitted)
    requires Labelled(entries, emitted, conditionOf, patchMappings, patchEncodings)
    ensures Represents(segments, conditions, entries, at)
  {
    hide WellFormed, Acyclic, Means, Emitted, Faithful, Labelled, Carries, IsConditionOf, Topological, EmittedFrom, RootsOf,
      EntryRepresents, Backwards;
    EmittedFacts(nodes, index, entries, emitted);
    at := [];
    for i := 0 to |keys|
      invariant |at| == i && forall j :: 0 <= j < i ==> keys[j] in byCondition && byCondition[keys[j]] in index && at[j] == index[byCondition[keys[j]]]
    {
      assert keys[i] in keys;
      RootEmitted(nodes, counts, rank, byCondition, patchMappings, sorted, index, keys[i]);
      at := at + [index[byCondition[keys[i]]]];
    }
    forall i | 0 <= i < |at| ensures EntryRepresents(segments, conditions[i], entries, at[i]) {
      assert keys[i] in keys;
      OneRepresents(segments, conditions[i], keys[i], nodes, rank, byCondition, patchMappings, patchEncodings, conditionOf, index, entries, emitted);
    }
    IndexBelow(nodes, index, entries, emitted);
    forall i, j | 0 <= i < j < |at| ensures at[i] != at[j] {
      assert keys[i] in keys && keys[j] in keys;
      OneKey(conditionOf, byCondition, patchMappings, keys[i], keys[j]);
    }
    forall e | 0 <= e < |entries| && !entries[e].ignored ensures e in at {
      var k := LabelledCondition(byCondition, patchMappings, patchEncodings, conditionOf, entries, emitted, e);
      var i :| 0 <= i < |keys| && keys[i] == k;
      assert at[i] == e;
    }
    forall e | 0 <= e < |entries| ensures |entries[e].childIndices| <= MAX_CHILDREN {
      FewIndices(nodes, counts, rank, RootsOf(patchMappings, byCondition), index, entries, emitted, e);
    }
  }

  lemma EmittedFacts(nodes: seq<EntryNode>, index: map<nat, nat>, entries: seq<Entry>, emitted: seq<nat>)
    requires Emitted(nodes, index, entries, emitted)
    ensures Backwards(entries) && |emitted| == |entries|
    ensures forall e :: 0 <= e < |emitted| ==> emitted[e] < |nodes| && emitted[e] in index && index[emitted[e]] == e
  {
  }

  lemma RootIsLive(nodes: seq<EntryNode>, counts: seq<nat>, rank: seq<nat>, roots: set<nat>, id: nat)
    requires WellFormed(nodes, counts, rank, roots) && id in roots
    ensures id < |nodes| == |counts| && counts[id] > 0
  {
    hide Acyclic, InDegree, LeavesHaveSets;
  }

  lemma RootEmitted(nodes: seq<EntryNode>, counts: seq<nat>, rank: seq<nat>, byCondition: map<Key, nat>, patchMappings: map<Key, seq<nat>>,
                    sorted: seq<nat>, index: map<nat, nat>, k: Key)
    requires WellFormed(nodes, counts, rank, RootsOf(patchMappings, byCondition)) && k in patchMappings && k in byCondition
    requires byCondition[k] < |nodes| && Topological(nodes, sorted) && EmittedFrom(sorted, counts, 0, index)
    ensures byCondition[k] in index
  {
    hide WellFormed, ParentsIn;
    assert byCondition[k] in RootsOf(patchMappings, byCondition);
    RootIsLive(nodes, counts, rank, RootsOf(patchMappings, byCondition), byCondition[k]);
    assert byCondition[k] in sorted;
    var j :| 0 <= j < |sorted| && sorted[j] == byCondition[k];
  }

  lemma OneKey(conditionOf: map<nat, Key>, byCondition: map<Key, nat>, patchMappings: map<Key, seq<nat>>, k: Key, k': Key)
    requires IsConditionOf(conditionOf, byCondition, patchMappings.Keys) && k in patchMappings && k' in patchMappings
    requires k in byCondition && k' in byCondition && k != k'
    ensures byCondition[k] != byCondition[k']
  {
  }

  lemma LabelledCondition(byCondition: map<Key, nat>, patchMappings: map<Key, seq<nat>>, patchEncodings: map<Key, PatchEncoding>,
                          conditionOf: map<nat, Key>, entries: seq<Entry>, emitted: seq<nat>, e: nat)
    returns (k: Key)
    requires IsConditionOf(conditionOf, byCondition, patchMappings.Keys) && e < |entries| == |emitted| && !entries[e].ignored
    requires Labelled(entries, emitted, conditionOf, patchMappings, patchEncodings)
    ensures k in patchMappings && k in byCondition && byCondition[k] == emitted[e]
  {
    assert emitted[e] in conditionOf;
    k := conditionOf[emitted[e]];
  }

  lemma FewIndices(nodes: seq<EntryNode>, counts: seq<nat>, rank: seq<nat>, roots: set<nat>, index: map<nat, nat>, entries: seq<Entry>,
                   emitted: seq<nat>, e: nat)
    requires WellFormed(nodes, counts, rank, roots) && Emitted(nodes, index, entries, emitted) && e < |entries|
    ensures |entries[e].childIndices| <= MAX_CHILDREN
  {
    var x := emitted[e];
    assert IsEmitted(nodes, index, entries, x);
    ImageSize(nodes[x].children, index);
  }

  lemma OneRepresents(segments: Segments, condition: ActivationCondition, k: Key, nodes: seq<EntryNode>, rank: seq<nat>,
                      byCondition: map<Key, nat>, patchMappings: map<Key, seq<nat>>, patchEncodings: map<Key, PatchEncoding>,
                      conditionOf: map<nat, Key>, index: map<nat, nat>, entries: seq<Entry>, emitted: seq<nat>)
    requires Acyclic(nodes, rank) && k in patchMappings && k in byCondition && byCondition[k] in index && byCondition[k] < |nodes|
    requires Carries(condition, k, patchMappings, patchEncodings) && Means(segments, nodes, rank, byCondition[k], k)
    requires IsConditionOf(conditionOf, byCondition, patchMappings.Keys)
    requires Emitted(nodes, index, entries, emitted) && Faithful(nodes, rank, entries, emitted)
    requires Labelled(entries, emitted, conditionOf, patchMappings, patchEncodings)
    ensures var e := index[byCondition[k]];
            Backwards(entries) && EntryRepresents(segments, condition, entries, e)
  {
    hide Acyclic, Eval, Matches, Canonical, IsEmitted;
    var x := byCondition[k];
    IndexBelow(nodes, index, entries, emitted);
    var e := index[x];
    assert emitted[e] == x;
    assert conditionOf[x] == k;
    forall input ensures Matches(entries, e, input) <==> Holds(condition.groups, Active(segments, input)) {
      SimplifiedHolds(condition.groups, k, Active(segments, input));
    }
  }

  // ---------- the list as a whole ----------

  /** The graph that a list is written from: its nodes in topological order, and where each live one ends up. */
  datatype Layout = Layout(nodes: seq<EntryNode>, counts: seq<nat>, rank: seq<nat>, sorted: seq<nat>, index: map<nat, nat>)

  /** The live nodes from position i of the sorted list on, last ones first. */
  ghost function LiveFrom(sorted: seq<nat>, counts: seq<nat>, i: nat): seq<nat>
    requires i <= |sorted| && forall j :: 0 <= j < |sorted| ==> sorted[j] < |counts|
    decreases |sorted| - i
  {
    if i == |sorted| then [] else LiveFrom(sorted, counts, i + 1) + (if counts[sorted[i]] > 0 then [sorted[i]] else [])
  }

  /** One entry for each live node, in reverse topological order and by priority, with the sets, the mode and the children
      of the node. */
  ghost predicate WrittenFrom(entries: seq<Entry>, l: Layout) {
    && |l.nodes| == |l.counts| && Topological(l.nodes, l.sorted) && ByPriority(l.nodes, l.sorted)
    && Emitted(l.nodes, l.index, entries, LiveFrom(l.sorted, l.counts, 0))
  }

  /** Entries that no condition has are ignored; they have the default encoding and the patch id after the last one. */
  ghost predicate IgnoredAre(entries: seq<Entry>, defaultEncoding: PatchEncoding) {
    forall e :: 0 <= e < |entries| && entries[e].ignored ==> IgnoredIs(entries[..e], entries[e], defaultEncoding)
  }

  ghost predicate IgnoredIs(before: seq<Entry>, entry: Entry, defaultEncoding: PatchEncoding) {
    entry.encoding == defaultEncoding && entry.patchIndices == [LastPatchId(before) + 1]
  }

  lemma IgnoredNext(entries: seq<Entry>, defaultEncoding: PatchEncoding, entry: Entry)
    requires IgnoredAre(entries, defaultEncoding)
    requires entry.ignored ==> IgnoredIs(entries, entry, defaultEncoding)
    ensures IgnoredAre(entries + [entry], defaultEncoding)
  {
    hide IgnoredIs;
    var entries' := entries + [entry];
    forall e | 0 <= e < |entries'| && entries'[e].ignored ensures IgnoredIs(entries'[..e], entries'[e], defaultEncoding) {
      if e < |entries| {
        assert entries'[..e] == entries[..e] && entries'[e] == entries[e];
      } else {
        assert entries'[..e] == entries && entries'[e] == entry;
      }
    }
  }

  ghost function EntryCost(cost: CostModel, entry: Entry): nat {
    cost(entry.coverage, entry.conjunctive, |entry.childIndices|)
  }

  /** What all the entries of a list cost. */
  ghost function ListCost(cost: CostModel, entries: seq<Entry>): nat {
    if entries == [] then 0 else ListCost(cost, entries[..|entries| - 1]) + EntryCost(cost, entries[|entries| - 1])
  }

  /** What some nodes cost. */
  ghost function CostOf(cost: CostModel, nodes: seq<EntryNode>, ids: seq<nat>): nat
    requires forall i :: 0 <= i < |ids| ==> ids[i] < |nodes|
  {
    if ids == [] then 0 else CostOf(cost, nodes, ids[..|ids| - 1]) + NodeCost(cost, nodes[ids[|ids| - 1]])
  }

  lemma {:induction false} CostWithout(cost: CostModel, nodes: seq<EntryNode>, ids: seq<nat>, p: nat)
    requires p < |ids| && forall i :: 0 <= i < |ids| ==> ids[i] < |nodes|
    ensures CostOf(cost, nodes, ids) == CostOf(cost, nodes, ids[..p] + ids[p + 1..]) + NodeCost(cost, nodes[ids[p]])
  {
    var n := |ids| - 1;
    if p == n {
      assert ids[..p] + ids[p + 1..] == ids[..n];
    } else {
      CostWithout(cost, nodes, ids[..n], p);
      var rest := ids[..p] + ids[p + 1..];
      assert rest[..|rest| - 1] == ids[..n][..p] + ids[..n][p + 1..];
      assert rest[|rest| - 1] == ids[n];
    }
  }

  lemma {:induction false} CostOfPrefix(cost: CostModel, nodes: seq<EntryNode>, n: nat, ids: seq<nat>)
    requires n <= |nodes| && forall i :: 0 <= i < |ids| ==> ids[i] < n
    ensures CostOf(cost, nodes, ids) == CostOf(cost, nodes[..n], ids)
  {
    if ids != [] {
      CostOfPrefix(cost, nodes, n, ids[..|ids| - 1]);
    }
  }

  ghost predicate AreLive(ids: seq<nat>, counts: seq<nat>) {
    && (forall i, j :: 0 <= i < j < |ids| ==> ids[i] != ids[j])
    && forall x: nat :: x in ids <==> x < |counts| && counts[x] > 0
  }

  lemma EmptyOrMember(ids: seq<nat>)
    ensures ids == [] || ids[0] in ids
  {
  }

  lemma LiveInRange(ids: seq<nat>, counts: seq<nat>)
    requires AreLive(ids, counts)
    ensures forall i :: 0 <= i < |ids| ==> ids[i] < |counts|
    ensures counts != [] && counts[|counts| - 1] == 0 ==> AreLive(ids, counts[..|counts| - 1])
    ensures counts == [] ==> ids == []
  {
    forall i | 0 <= i < |ids| ensures ids[i] < |counts| {
      assert ids[i] in ids;
    }
    EmptyOrMember(ids);
  }

  /** The live nodes, listed once each, make up the live cost. */
  lemma {:induction false} LiveNodesCost(cost: CostModel, nodes: seq<EntryNode>, counts: seq<nat>, ids: seq<nat>)
    requires |nodes| == |counts| && AreLive(ids, counts)
    ensures (forall i :: 0 <= i < |ids| ==> ids[i] < |nodes|) && CostOf(cost, nodes, ids) == LiveCost(cost, nodes, counts)
  {
    hide AreLive, NodeCost, CostOf;
    LiveInRange(ids, counts);
    if nodes == [] {
      NoCost(cost, nodes);
    } else {
      var n := |nodes| - 1;
      if counts[n] > 0 {
        var rest := LastLive(cost, nodes, counts, ids);
        LiveNodesCost(cost, nodes[..n], counts[..n], rest);
        CostOfPrefix(cost, nodes, n, rest);
      } else {
        LiveNodesCost(cost, nodes[..n], counts[..n], ids);
        CostOfPrefix(cost, nodes, n, ids);
      }
    }
  }

  lemma NoCost(cost: CostModel, nodes: seq<EntryNode>)
    ensures CostOf(cost, nodes, []) == 0
  {
  }

  /** The list without the last node, if that is live. */
  lemma LastLive(cost: CostModel, nodes: seq<EntryNode>, counts: seq<nat>, ids: seq<nat>) returns (rest: seq<nat>)
    requires |nodes| == |counts| > 0 && AreLive(ids, counts) && counts[|counts| - 1] > 0
    requires forall i :: 0 <= i < |ids| ==> ids[i] < |nodes|
    ensures var n := |nodes| - 1;
            && AreLive(rest, counts[..n]) && (forall i :: 0 <= i < |rest| ==> rest[i] < n)
            && CostOf(cost, nodes, ids) == CostOf(cost, nodes, rest) + NodeCost(cost, nodes[n])
  {
    hide NodeCost, CostOf;
    var n := |nodes| - 1;
    assert n in ids;
    var p :| 0 <= p < |ids| && ids[p] == n;
    rest := ids[..p] + ids[p + 1..];
    LiveWithout(ids, counts, p);
    LiveInRange(rest, counts[..n]);
    CostWithout(cost, nodes, ids, p);
  }

  lemma LiveWithout(ids: seq<nat>, counts: seq<nat>, p: nat)
    requires AreLive(ids, counts) && p < |ids| && counts != [] && ids[p] == |counts| - 1
    ensures AreLive(ids[..p] + ids[p + 1..], counts[..|counts| - 1])
  {
    var n, rest := |counts| - 1, ids[..p] + ids[p + 1..];
    forall i | 0 <= i < |rest| ensures rest[i] == ids[if i < p then i else i + 1] {
    }
    forall x: nat ensures x in rest <==> x < n && counts[..n][x] > 0 {
      if x in rest {
        var i :| 0 <= i < |rest| && rest[i] == x;
        assert ids[if i < p then i else i + 1] in ids;
      }
      if x < n && counts[x] > 0 {
        assert x in ids;
        var i :| 0 <= i < |ids| && ids[i] == x;
        assert rest[if i < p then i else i - 1] == x;
      }
    }
  }

  lemma LiveFromNext(sorted: seq<nat>, counts: seq<nat>, i: nat)
    requires i < |sorted| && forall j :: 0 <= j < |sorted| ==> sorted[j] < |counts|
    ensures LiveFrom(sorted, counts, i) == LiveFrom(sorted, counts, i + 1) + (if counts[sorted[i]] > 0 then [sorted[i]] else [])
    ensures forall x :: x in sorted[i..] <==> x in sorted[i + 1..] || x == sorted[i]
  {
    assert sorted[i..] == [sorted[i]] + sorted[i + 1..];
  }

  lemma {:induction false} LiveFromMembers(sorted: seq<nat>, counts: seq<nat>, i: nat)
    requires i <= |sorted| && forall j :: 0 <= j < |sorted| ==> sorted[j] < |counts|
    requires forall j, k :: 0 <= j < k < |sorted| ==> sorted[j] != sorted[k]
    ensures var ids := LiveFrom(sorted, counts, i);
            && (forall x :: x in ids <==> x in sorted[i..] && counts[x] > 0)
            && forall j, k :: 0 <= j < k < |ids| ==> ids[j] != ids[k]
    decreases |sorted| - i
  {
    if i < |sorted| {
      LiveFromMembers(sorted, counts, i + 1);
      LiveFromNext(sorted, counts, i);
      hide LiveFrom;
      var before, s := LiveFrom(sorted, counts, i + 1), sorted[i];
      assert s !in sorted[i + 1..];
      var last: seq<nat> := if counts[s] > 0 then [s] else [];
      forall x ensures x in before + last <==> x in sorted[i..] && counts[x] > 0 {
        assert x in before + last <==> x in before || x in last;
      }
    } else {
      assert sorted[i..] == [];
    }
  }

  lemma {:induction false} ImageSizeIs(s: set<nat>, index: map<nat, nat>)
    requires forall c :: c in s ==> c in index
    requires forall c, d :: c in s && d in s && index[c] == index[d] ==> c == d
    ensures |set c | c in s && c in index :: index[c]| == |s|
    decreases |s|
  {
    var image := set c | c in s && c in index :: index[c];
    if s == {} {
      assert image == {};
    } else {
      var x :| x in s;
      ImageSizeIs(s - {x}, index);
      var rest := set c | c in s - {x} && c in index :: index[c];
      assert image == rest + {index[x]};
      assert index[x] !in rest;
    }
  }

  lemma EntryCostIs(cost: CostModel, nodes: seq<EntryNode>, index: map<nat, nat>, entries: seq<Entry>, emitted: seq<nat>, e: nat)
    requires Emitted(nodes, index, entries, emitted) && e < |entries|
    ensures emitted[e] < |nodes| && EntryCost(cost, entries[e]) == NodeCost(cost, nodes[emitted[e]])
  {
    IndexBelow(nodes, index, entries, emitted);
    assert IsEmitted(nodes, index, entries, emitted[e]);
    ImageSizeIs(nodes[emitted[e]].children, index);
  }

  lemma {:induction false} PrefixCostIs(cost: CostModel, nodes: seq<EntryNode>, index: map<nat, nat>, entries: seq<Entry>, emitted: seq<nat>, n: nat)
    requires Emitted(nodes, index, entries, emitted) && n <= |entries|
    ensures (forall i :: 0 <= i < n ==> emitted[i] < |nodes|) && ListCost(cost, entries[..n]) == CostOf(cost, nodes, emitted[..n])
  {
    hide EntryCost, NodeCost, IsEmitted;
    if n > 0 {
      PrefixCostIs(cost, nodes, index, entries, emitted, n - 1);
      EntryCostIs(cost, nodes, index, entries, emitted, n - 1);
      assert entries[..n][..n - 1] == entries[..n - 1] && emitted[..n][..n - 1] == emitted[..n - 1];
    }
  }

  /** The entries cost what the live nodes cost. */
  lemma WrittenCost(cost: CostModel, entries: seq<Entry>, l: Layout)
    requires WrittenFrom(entries, l)
    ensures |l.nodes| == |l.counts| && ListCost(cost, entries) == LiveCost(cost, l.nodes, l.counts)
  {
    hide IsEmitted, ParentsIn, ListCost, CostOf, LiveCost, Backwards;
    var ids := LiveFrom(l.sorted, l.counts, 0);
    LiveFromMembers(l.sorted, l.counts, 0);
    assert l.sorted[0..] == l.sorted;
    LiveNodesCost(cost, l.nodes, l.counts, ids);
    PrefixCostIs(cost, l.nodes, l.index, entries, ids, |entries|);
    assert entries[..|entries|] == entries && ids[..|entries|] == ids;
  }
}
