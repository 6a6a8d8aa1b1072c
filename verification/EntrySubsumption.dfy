/** Summaries of purely disjunctive nodes, and what subsuming them means and costs. */
module EntrySubsumption {
  import opened IntSets
  import opened SubsetDefinitions
  import opened EntryNodes
  import opened EntryGraphs
  import opened Wrappers

  // ---------- what single nodes mean ----------

  lemma EvalLeaf(nodes: seq<EntryNode>, rank: seq<nat>, x: nat, input: SubsetDefinition)
    requires Acyclic(nodes, rank) && x < |nodes| && nodes[x].children == {}
    ensures Eval(nodes, rank, x, input) <==> nodes[x].sets.MatchedBy(input)
    ensures nodes[x].sets.NonEmptySets() == 1 ==> (Eval(nodes, rank, x, input) <==> nodes[x].sets.MetBy(input))
  {
    if nodes[x].sets.NonEmptySets() == 1 {
      OneSetMatchesIfMet(nodes[x].sets, input);
    }
  }

  lemma EvalOr(nodes: seq<EntryNode>, rank: seq<nat>, x: nat, input: SubsetDefinition)
    requires Acyclic(nodes, rank) && x < |nodes| && nodes[x].children != {}
    requires nodes[x].mode == OR && nodes[x].sets.Empty()
    ensures Eval(nodes, rank, x, input) <==> exists c :: c in nodes[x].children && Eval(nodes, rank, c, input)
  {
    assert nodes[x].sets.MatchedBy(input);
  }

  lemma EvalAnd(nodes: seq<EntryNode>, rank: seq<nat>, x: nat, input: SubsetDefinition)
    requires Acyclic(nodes, rank) && x < |nodes| && nodes[x].mode == AND
    ensures Eval(nodes, rank, x, input) <==>
            nodes[x].sets.MatchedBy(input) && forall c :: c in nodes[x].children ==> Eval(nodes, rank, c, input)
  {
  }

  // ---------- disjunctive summaries ----------

  /** The union of all sets below a node, if it is made of disjunctions only. */
  ghost function Summary(nodes: seq<EntryNode>, rank: seq<nat>, x: nat): Option<SubsetDefinition>
    requires Acyclic(nodes, rank) && x < |nodes|
    decreases rank[x], 1, 0
  {
    var node := nodes[x];
    if node.children != {} && (node.mode != OR || !node.sets.Empty()) then None
    else if node.sets.NonEmptySets() > 1 then None
    else
      ChildrenListed(nodes, rank, x);
      SummaryOfAll(nodes, rank, x, ToVector(node.children), node.sets)
  }

  ghost predicate ChildrenOf(nodes: seq<EntryNode>, x: nat, cs: seq<nat>)
    requires x < |nodes|
  {
    forall k :: 0 <= k < |cs| ==> cs[k] in nodes[x].children && cs[k] < |nodes|
  }

  lemma ChildrenListed(nodes: seq<EntryNode>, rank: seq<nat>, x: nat)
    requires Acyclic(nodes, rank) && x < |nodes|
    ensures ChildrenOf(nodes, x, ToVector(nodes[x].children))
  {
    var v := ToVector(nodes[x].children);
    hide ToVector;
    forall k | 0 <= k < |v| ensures v[k] in nodes[x].children {
      assert v[k] in v;
    }
  }

  ghost function SummaryOfAll(nodes: seq<EntryNode>, rank: seq<nat>, x: nat, cs: seq<nat>, acc: SubsetDefinition): Option<SubsetDefinition>
    requires Acyclic(nodes, rank) && x < |nodes| && ChildrenOf(nodes, x, cs)
    decreases rank[x], 0, |cs|
  {
    if cs == [] then Some(acc)
    else
      match Summary(nodes, rank, cs[0])
      case None => None
      case Some(s) =>
        if CanUnion(acc.space, s.space) then SummaryOfAll(nodes, rank, x, cs[1..], UnionOf(acc, s)) else None
  }

  lemma SummaryStart(nodes: seq<EntryNode>, rank: seq<nat>, x: nat)
    requires Acyclic(nodes, rank) && x < |nodes|
    ensures ChildrenOf(nodes, x, ToVector(nodes[x].children)[0..])
    ensures Summary(nodes, rank, x) ==
            if (nodes[x].children != {} && (nodes[x].mode != OR || !nodes[x].sets.Empty())) || nodes[x].sets.NonEmptySets() > 1
            then None
            else SummaryOfAll(nodes, rank, x, ToVector(nodes[x].children)[0..], nodes[x].sets)
  {
    ChildrenListed(nodes, rank, x);
    assert ToVector(nodes[x].children)[0..] == ToVector(nodes[x].children);
  }

  lemma SummaryNext(nodes: seq<EntryNode>, rank: seq<nat>, x: nat, cs: seq<nat>, k: nat, acc: SubsetDefinition)
    requires Acyclic(nodes, rank) && x < |nodes| && k < |cs| && ChildrenOf(nodes, x, cs[k..])
    ensures cs[k] < |nodes| && rank[cs[k]] < rank[x] && ChildrenOf(nodes, x, cs[k + 1..])
    ensures SummaryOfAll(nodes, rank, x, cs[k..], acc) ==
            if Summary(nodes, rank, cs[k]).Some? && CanUnion(acc.space, Summary(nodes, rank, cs[k]).value.space)
            then SummaryOfAll(nodes, rank, x, cs[k + 1..], UnionOf(acc, Summary(nodes, rank, cs[k]).value))
            else None
  {
    assert cs[k..][0] == cs[k] && cs[k..][1..] == cs[k + 1..];
    assert cs[k] in nodes[x].children;
  }

  lemma SummaryEnd(nodes: seq<EntryNode>, rank: seq<nat>, x: nat, acc: SubsetDefinition)
    requires Acyclic(nodes, rank) && x < |nodes|
    ensures SummaryOfAll(nodes, rank, x, [], acc) == Some(acc)
  {
  }

  /** No leaf below x, and x itself if it is one, is without a local set. */
  ghost predicate LeavesOk(nodes: seq<EntryNode>, x: nat)
    requires x < |nodes|
  {
    && (forall y :: 0 <= y < |nodes| ==> LeavesHaveSets(nodes, y))
    && (nodes[x].children == {} ==> !nodes[x].sets.Empty())
  }

  /** A purely disjunctive node matches exactly the inputs that meet its summary. */
  lemma {:induction false} SummaryMeaning(nodes: seq<EntryNode>, rank: seq<nat>, x: nat, input: SubsetDefinition)
    requires Acyclic(nodes, rank) && x < |nodes| && LeavesOk(nodes, x) && Summary(nodes, rank, x).Some?
    ensures Eval(nodes, rank, x, input) <==> Summary(nodes, rank, x).value.MetBy(input)
    ensures !Summary(nodes, rank, x).value.Empty()
    decreases rank[x], 1, 0
  {
    var node := nodes[x];
    var cs := ToVector(node.children);
    ChildrenListed(nodes, rank, x);
    assert forall c :: c in node.children <==> c in cs;
    hide ToVector, Eval, SubsetDefinition.MetBy, SubsetDefinition.MatchedBy;
    SummaryOfAllMeaning(nodes, rank, x, cs, node.sets, input);
    if node.children == {} {
      assert |cs| == |node.children|;
      EvalLeaf(nodes, rank, x, input);
    } else {
      EvalOr(nodes, rank, x, input);
      EmptyNotMet(node.sets, input);
      assert (exists c :: c in node.children && Eval(nodes, rank, c, input)) <==> SomeEval(nodes, rank, cs, input) by {
        if c :| c in node.children && Eval(nodes, rank, c, input) {
          var k :| 0 <= k < |cs| && cs[k] == c;
          assert SomeEval(nodes, rank, cs, input);
        }
      }
    }
  }

  lemma EmptyNotMet(d: SubsetDefinition, input: SubsetDefinition)
    ensures d.Empty() ==> !d.MetBy(input)
  {
  }

  ghost predicate SomeEval(nodes: seq<EntryNode>, rank: seq<nat>, cs: seq<nat>, input: SubsetDefinition)
    requires Acyclic(nodes, rank) && forall k :: 0 <= k < |cs| ==> cs[k] < |nodes|
  {
    exists k :: 0 <= k < |cs| && Eval(nodes, rank, cs[k], input)
  }

  lemma {:induction false} SummaryOfAllMeaning(nodes: seq<EntryNode>, rank: seq<nat>, x: nat, cs: seq<nat>,
                                               acc: SubsetDefinition, input: SubsetDefinition)
    requires Acyclic(nodes, rank) && x < |nodes| && LeavesOk(nodes, x) && ChildrenOf(nodes, x, cs)
    requires SummaryOfAll(nodes, rank, x, cs, acc).Some?
    ensures SummaryOfAll(nodes, rank, x, cs, acc).value.MetBy(input)
            <==> acc.MetBy(input) || SomeEval(nodes, rank, cs, input)
    ensures SummaryOfAll(nodes, rank, x, cs, acc).value.Empty() <==> acc.Empty() && cs == []
    decreases rank[x], 0, |cs|
  {
    hide SubsetDefinition.MetBy, SubsetDefinition.Empty, UnionOf, Eval, Summary, CanUnion, UnionSpaces, SomeEval, LeavesOk;
    if cs == [] {
      NothingEvaluates(nodes, rank, input);
    } else {
      FirstChildOk(nodes, rank, x, cs);
      hide Acyclic;
      var s := Summary(nodes, rank, cs[0]).value;
      SummaryMeaning(nodes, rank, cs[0], input);
      UnionMetBy(acc, s, input);
      SummaryOfAllMeaning(nodes, rank, x, cs[1..], UnionOf(acc, s), input);
      SomeEvalStep(nodes, rank, cs, input);
    }
  }

  lemma NothingEvaluates(nodes: seq<EntryNode>, rank: seq<nat>, input: SubsetDefinition)
    requires Acyclic(nodes, rank)
    ensures !SomeEval(nodes, rank, [], input)
  {
  }

  lemma FirstChildOk(nodes: seq<EntryNode>, rank: seq<nat>, x: nat, cs: seq<nat>)
    requires Acyclic(nodes, rank) && x < |nodes| && LeavesOk(nodes, x) && ChildrenOf(nodes, x, cs) && cs != []
    ensures cs[0] < |nodes| && rank[cs[0]] < rank[x] && LeavesOk(nodes, cs[0]) && ChildrenOf(nodes, x, cs[1..])
    ensures forall k :: 0 <= k < |cs| ==> cs[k] < |nodes|
  {
    assert LeavesHaveSets(nodes, x) && cs[0] in nodes[x].children;
  }

  lemma SomeEvalStep(nodes: seq<EntryNode>, rank: seq<nat>, cs: seq<nat>, input: SubsetDefinition)
    requires Acyclic(nodes, rank) && cs != [] && forall k :: 0 <= k < |cs| ==> cs[k] < |nodes|
    ensures SomeEval(nodes, rank, cs, input) <==> Eval(nodes, rank, cs[0], input) || SomeEval(nodes, rank, cs[1..], input)
  {
    if SomeEval(nodes, rank, cs, input) {
      var k :| 0 <= k < |cs| && Eval(nodes, rank, cs[k], input);
      assert k > 0 ==> cs[1..][k - 1] == cs[k];
    }
    if SomeEval(nodes, rank, cs[1..], input) {
      var k :| 0 <= k < |cs[1..]| && Eval(nodes, rank, cs[1..][k], input);
      assert cs[k + 1] == cs[1..][k];
    }
  }

  // ---------- disjunctive subsumption ----------

  /** A definition as its sets that are not empty, one by one. */
  function Parts(d: SubsetDefinition): (r: seq<SubsetDefinition>)
    ensures |r| == d.NonEmptySets() && forall k :: 0 <= k < |r| ==> r[k].NonEmptySets() == 1
  {
    (if d.codepoints != {} then [NOTHING.(codepoints := d.codepoints)] else [])
    + (if d.features != {} then [NOTHING.(features := d.features)] else [])
    + (if d.space != map[] then [NOTHING.(space := d.space)] else [])
  }

  ghost predicate SomeMet(parts: seq<SubsetDefinition>, input: SubsetDefinition) {
    exists k :: 0 <= k < |parts| && parts[k].MetBy(input)
  }

  lemma PartsMet(d: SubsetDefinition, input: SubsetDefinition)
    ensures d.MetBy(input) <==> SomeMet(Parts(d), input)
  {
    var p := Parts(d);
    var c, f := if d.codepoints != {} then 1 else 0, if d.features != {} then 1 else 0;
    if d.codepoints * input.codepoints != {} {
      assert p[0].MetBy(input);
    }
    if d.features * input.features != {} {
      assert p[c].MetBy(input);
    }
    if SpaceMeets(d.space, input.space) {
      assert p[c + f].MetBy(input);
    }
  }

  /** The children of v are new leaves from id `base` on, one for each part. */
  ghost predicate LeavesOf(nodes: seq<EntryNode>, v: nat, base: nat, parts: seq<SubsetDefinition>)
    requires v < |nodes|
  {
    && |nodes| == base + |parts|
    && (forall c :: c in nodes[v].children <==> base <= c < base + |parts|)
    && forall k :: 0 <= k < |parts| ==> SameMeaning(nodes[base + k], EntryNode(parts[k], NONE, {}, 0))
  }

  lemma LeavesMeaning(nodes: seq<EntryNode>, rank: seq<nat>, v: nat, base: nat, parts: seq<SubsetDefinition>, input: SubsetDefinition)
    requires Acyclic(nodes, rank) && v < |nodes| && LeavesOf(nodes, v, base, parts) && parts != []
    requires nodes[v].mode == OR && nodes[v].sets == NOTHING
    requires forall k :: 0 <= k < |parts| ==> parts[k].NonEmptySets() == 1
    ensures Eval(nodes, rank, v, input) <==> SomeMet(parts, input)
  {
    hide Eval, SubsetDefinition.MetBy, SubsetDefinition.MatchedBy;
    forall k | 0 <= k < |parts| ensures Eval(nodes, rank, base + k, input) <==> parts[k].MetBy(input) {
      assert SameMeaning(nodes[base + k], EntryNode(parts[k], NONE, {}, 0));
      EvalLeaf(nodes, rank, base + k, input);
    }
    assert base in nodes[v].children;
    EvalOr(nodes, rank, v, input);
    if Eval(nodes, rank, v, input) {
      var c :| c in nodes[v].children && Eval(nodes, rank, c, input);
      assert c == base + (c - base) && parts[c - base].MetBy(input);
    }
    if SomeMet(parts, input) {
      var k :| 0 <= k < |parts| && parts[k].MetBy(input);
      var c := base + k;
      assert c in nodes[v].children && Eval(nodes, rank, c, input);
    }
  }

  // ---------- conjunctive subsumption ----------

  /** The children chosen to fill the empty sets of a conjunctive node. */
  datatype Choice = Choice(codepoints: Option<nat>, features: Option<nat>, space: Option<nat>) {
    function Ids(): (r: set<nat>) {
      (if codepoints.Some? then {codepoints.value} else {})
      + (if features.Some? then {features.value} else {})
      + (if space.Some? then {space.value} else {})
    }
  }

  /** A child that can fill an empty set of v: it comes down to one set, of a kind that v lacks. */
  ghost predicate IsCandidate(nodes: seq<EntryNode>, rank: seq<nat>, v: nat, c: nat)
    requires Acyclic(nodes, rank) && v < |nodes|
  {
    && c in nodes[v].children
    && Summary(nodes, rank, c).Some?
    && var s := Summary(nodes, rank, c).value;
       Fills(nodes[v].sets, s)
  }

  /** The summary has one set only, of a kind that `sets` lacks. */
  predicate Fills(sets: SubsetDefinition, s: SubsetDefinition) {
    && s.NonEmptySets() == 1
    && !(s.codepoints != {} && sets.codepoints != {})
    && !(s.features != {} && sets.features != {})
    && !(s.space != map[] && sets.space != map[])
  }

  /** The two together have one set more that is not empty than the first alone. */
  lemma FillsWhereFree(sets: SubsetDefinition, s: SubsetDefinition)
    ensures Fills(sets, s) <==>
              && s.NonEmptySets() == 1
              && SubsetDefinition(sets.codepoints + s.codepoints, sets.features + s.features, sets.space + s.space).NonEmptySets()
                 == sets.NonEmptySets() + 1
  {
    assert sets.space + s.space == map[] <==> sets.space == map[] && s.space == map[] by {
      assert (sets.space + s.space).Keys == sets.space.Keys + s.space.Keys;
    }
  }

  ghost predicate ValidChoice(nodes: seq<EntryNode>, rank: seq<nat>, v: nat, choice: Choice)
    requires Acyclic(nodes, rank) && v < |nodes|
  {
    && (choice.codepoints.Some? ==> var c := choice.codepoints.value;
          IsCandidate(nodes, rank, v, c) && Summary(nodes, rank, c).value.codepoints != {})
    && (choice.features.Some? ==> var c := choice.features.value;
          IsCandidate(nodes, rank, v, c) && Summary(nodes, rank, c).value.features != {})
    && (choice.space.Some? ==> var c := choice.space.value;
          IsCandidate(nodes, rank, v, c) && Summary(nodes, rank, c).value.space != map[])
  }

  ghost function ChosenSets(nodes: seq<EntryNode>, rank: seq<nat>, v: nat, choice: Choice): SubsetDefinition
    requires Acyclic(nodes, rank) && v < |nodes| && ValidChoice(nodes, rank, v, choice)
  {
    SubsetDefinition(
      if choice.codepoints.Some? then Summary(nodes, rank, choice.codepoints.value).value.codepoints else nodes[v].sets.codepoints,
      if choice.features.Some? then Summary(nodes, rank, choice.features.value).value.features else nodes[v].sets.features,
      if choice.space.Some? then Summary(nodes, rank, choice.space.value).value.space else nodes[v].sets.space)
  }

  lemma ChoiceIsChildren(nodes: seq<EntryNode>, rank: seq<nat>, v: nat, choice: Choice)
    requires Acyclic(nodes, rank) && v < |nodes| && ValidChoice(nodes, rank, v, choice)
    ensures choice.Ids() <= nodes[v].children
    ensures choice.Ids() != {} ==> !ChosenSets(nodes, rank, v, choice).Empty()
  {
  }

  /** A conjunctive node matches when the chosen sets do and all other children do. */
  lemma ChoiceMeaning(nodes: seq<EntryNode>, rank: seq<nat>, v: nat, choice: Choice, input: SubsetDefinition)
    requires Acyclic(nodes, rank) && v < |nodes| && ValidChoice(nodes, rank, v, choice)
    requires nodes[v].mode == AND && forall y :: 0 <= y < |nodes| ==> LeavesHaveSets(nodes, y)
    ensures Eval(nodes, rank, v, input) <==>
            && ChosenSets(nodes, rank, v, choice).MatchedBy(input)
            && forall c :: c in nodes[v].children - choice.Ids() ==> Eval(nodes, rank, c, input)
  {
    ChoiceIsChildren(nodes, rank, v, choice);
    forall c | c in choice.Ids()
      ensures Summary(nodes, rank, c).Some? && (Eval(nodes, rank, c, input) <==> Summary(nodes, rank, c).value.MetBy(input))
    {
      assert LeavesHaveSets(nodes, v);
      assert IsCandidate(nodes, rank, v, c);
      SummaryMeaning(nodes, rank, c, input);
    }
    hide Summary, Eval, SubsetDefinition.MetBy, SubsetDefinition.MatchedBy, Choice.Ids, LeavesHaveSets;
    assert forall c :: c in nodes[v].children <==> c in nodes[v].children - choice.Ids() || c in choice.Ids();
    EvalAnd(nodes, rank, v, input);
    ChosenMatched(nodes, rank, v, choice, input);
  }

  lemma ChosenMatched(nodes: seq<EntryNode>, rank: seq<nat>, v: nat, choice: Choice, input: SubsetDefinition)
    requires Acyclic(nodes, rank) && v < |nodes| && ValidChoice(nodes, rank, v, choice)
    ensures ChosenSets(nodes, rank, v, choice).MatchedBy(input) <==>
            nodes[v].sets.MatchedBy(input)
            && forall c :: c in choice.Ids() ==> Summary(nodes, rank, c).Some? && Summary(nodes, rank, c).value.MetBy(input)
  {
    hide Summary;
    var all := forall c :: c in choice.Ids() ==> Summary(nodes, rank, c).Some? && Summary(nodes, rank, c).value.MetBy(input);
    assert all <==>
      && (choice.codepoints.Some? ==> Summary(nodes, rank, choice.codepoints.value).value.MetBy(input))
      && (choice.features.Some? ==> Summary(nodes, rank, choice.features.value).value.MetBy(input))
      && (choice.space.Some? ==> Summary(nodes, rank, choice.space.value).value.MetBy(input));
  }

  // ---------- what a subsumption saves ----------

  function Opt<T(==)>(x: T, empty: T): Option<T> {
    if x == empty then None else Some(x)
  }

  datatype SubsumptionResult = SubsumptionResult(
    costDelta: int, subsumedChildren: set<nat>, codepoints: Option<set<nat>>, features: Option<set<nat>>, space: Option<Space>)

  const NO_CHANGE := SubsumptionResult(0, {}, None, None, None)

  /** The cost that is freed when v lets go of the children `taken`. */
  ghost function Freed(cost: CostModel, nodes: seq<EntryNode>, counts: seq<nat>, taken: set<nat>): int
    requires |nodes| == |counts| && InRange(nodes, ToVector(taken))
  {
    LiveCost(cost, nodes, counts) - LiveCost(cost, nodes, CountsWithout(nodes, counts, taken))
  }

  function PartsCost(cost: CostModel, parts: seq<SubsetDefinition>): nat {
    if parts == [] then 0 else PartsCost(cost, parts[..|parts| - 1]) + cost(parts[|parts| - 1], false, 0)
  }

  /** The cost of a node for a summary, with the leaves it needs when more than one set is not empty. */
  function SummaryCost(cost: CostModel, s: SubsetDefinition): nat {
    if s.NonEmptySets() <= 1 then cost(s, false, 0)
    else cost(NOTHING, false, s.NonEmptySets()) + PartsCost(cost, Parts(s))
  }

  /** What subsuming all children of a disjunctive node gives. */
  ghost predicate DisjunctiveResult(cost: CostModel, nodes: seq<EntryNode>, counts: seq<nat>, rank: seq<nat>, v: nat, r: SubsumptionResult)
    requires Acyclic(nodes, rank) && v < |nodes| && |nodes| == |counts|
  {
    if nodes[v].children == {} || Summary(nodes, rank, v).None? then r == NO_CHANGE
    else
      var s := Summary(nodes, rank, v).value;
      && r.subsumedChildren == nodes[v].children
      && r.codepoints == Opt(s.codepoints, {}) && r.features == Opt(s.features, {}) && r.space == Opt(s.space, map[])
      && InRange(nodes, ToVector(nodes[v].children))
      && r.costDelta == SummaryCost(cost, s) - NodeCost(cost, nodes[v]) - Freed(cost, nodes, counts, nodes[v].children)
  }

  ghost predicate ChoiceInRange(nodes: seq<EntryNode>, rank: seq<nat>, v: nat, choice: Choice)
    requires Acyclic(nodes, rank) && v < |nodes|
  {
    ValidChoice(nodes, rank, v, choice) && InRange(nodes, ToVector(choice.Ids()))
  }

  /** What filling the empty sets of a conjunctive node by the chosen children gives. */
  ghost function ChoiceResult(cost: CostModel, nodes: seq<EntryNode>, counts: seq<nat>, rank: seq<nat>, v: nat, choice: Choice): SubsumptionResult
    requires Acyclic(nodes, rank) && v < |nodes| && |nodes| == |counts| && ChoiceInRange(nodes, rank, v, choice)
  {
    var sets := ChosenSets(nodes, rank, v, choice);
    SubsumptionResult(
      cost(sets, true, |nodes[v].children - choice.Ids()|) - NodeCost(cost, nodes[v]) - Freed(cost, nodes, counts, choice.Ids()),
      choice.Ids(), Some(sets.codepoints), Some(sets.features), Some(sets.space))
  }

  ghost predicate IsChoiceResult(cost: CostModel, nodes: seq<EntryNode>, counts: seq<nat>, rank: seq<nat>, v: nat, choice: Choice, r: SubsumptionResult)
    requires Acyclic(nodes, rank) && v < |nodes| && |nodes| == |counts|
  {
    ChoiceInRange(nodes, rank, v, choice) && choice.Ids() != {} && r == ChoiceResult(cost, nodes, counts, rank, v, choice)
  }

  const NOT_FOUND := SubsumptionResult(0x7FFF_FFFF_FFFF_FFFF, {}, None, None, None)

  /** Some choice, or none has been found. */
  ghost predicate FromChoice(cost: CostModel, nodes: seq<EntryNode>, counts: seq<nat>, rank: seq<nat>, v: nat, r: SubsumptionResult)
    requires Acyclic(nodes, rank) && v < |nodes| && |nodes| == |counts|
  {
    r == NOT_FOUND || exists choice :: IsChoiceResult(cost, nodes, counts, rank, v, choice, r)
  }

  /** The result costs no more than the choice would. */
  ghost predicate NoWorse(cost: CostModel, nodes: seq<EntryNode>, counts: seq<nat>, rank: seq<nat>, v: nat, r: SubsumptionResult, choice: Choice)
    requires Acyclic(nodes, rank) && v < |nodes| && |nodes| == |counts|
  {
    ChoiceInRange(nodes, rank, v, choice) && choice.Ids() != {} ==>
      r.costDelta <= ChoiceResult(cost, nodes, counts, rank, v, choice).costDelta
  }

  /** The cheapest choice of children to fill the empty sets of a conjunctive node. */
  ghost predicate ConjunctiveResult(cost: CostModel, nodes: seq<EntryNode>, counts: seq<nat>, rank: seq<nat>, v: nat, r: SubsumptionResult)
    requires Acyclic(nodes, rank) && v < |nodes| && |nodes| == |counts|
  {
    FromChoice(cost, nodes, counts, rank, v, r)
    && forall choice :: ValidChoice(nodes, rank, v, choice) ==> NoWorse(cost, nodes, counts, rank, v, r, choice)
  }

  /** What subsuming into a node gives, whichever kind it is. */
  ghost predicate IsResultFor(cost: CostModel, nodes: seq<EntryNode>, counts: seq<nat>, rank: seq<nat>, v: nat, r: SubsumptionResult)
    requires Acyclic(nodes, rank) && v < |nodes| && |nodes| == |counts|
  {
    if nodes[v].mode == AND then ConjunctiveResult(cost, nodes, counts, rank, v, r) else DisjunctiveResult(cost, nodes, counts, rank, v, r)
  }

  /** No subsumption into any node would lower the cost. */
  ghost predicate NothingToGain(cost: CostModel, nodes: seq<EntryNode>, counts: seq<nat>, rank: seq<nat>) {
    && Acyclic(nodes, rank) && |nodes| == |counts|
    && forall v: nat, r :: v < |nodes| && IsResultFor(cost, nodes, counts, rank, v, r) ==> r.costDelta >= 0
  }

  datatype Candidate = Candidate(id: nat, sets: SubsetDefinition)

  /** The candidate is a child that can fill a set, with the set it comes down to. */
  ghost predicate Proper(nodes: seq<EntryNode>, rank: seq<nat>, v: nat, c: Candidate)
    requires Acyclic(nodes, rank) && v < |nodes|
  {
    IsCandidate(nodes, rank, v, c.id) && Summary(nodes, rank, c.id) == Some(c.sets)
  }

  /** Exactly the candidates among the first k children. */
  ghost predicate Found(nodes: seq<EntryNode>, rank: seq<nat>, v: nat, children: seq<nat>, k: nat, candidates: seq<Candidate>)
    requires Acyclic(nodes, rank) && v < |nodes| && k <= |children|
  {
    forall c :: c in candidates <==> Proper(nodes, rank, v, c) && c.id in children[..k]
  }

  lemma FoundNext(nodes: seq<EntryNode>, rank: seq<nat>, v: nat, children: seq<nat>, k: nat, candidates: seq<Candidate>)
    requires Acyclic(nodes, rank) && v < |nodes| && ChildrenOf(nodes, v, children) && k < |children|
    requires Found(nodes, rank, v, children, k, candidates)
    ensures children[k] < |nodes|
    ensures var s := Summary(nodes, rank, children[k]);
            Found(nodes, rank, v, children, k + 1,
              if s.Some? && Fills(nodes[v].sets, s.value) then candidates + [Candidate(children[k], s.value)] else candidates)
  {
    hide Summary, Fills, Acyclic;
    assert children[..k + 1] == children[..k] + [children[k]];
    assert children[k] in nodes[v].children;
    var s := Summary(nodes, rank, children[k]);
    var more := if s.Some? && Fills(nodes[v].sets, s.value) then candidates + [Candidate(children[k], s.value)] else candidates;
    forall c ensures c in more <==> Proper(nodes, rank, v, c) && c.id in children[..k + 1] {
      assert c in more <==> c in candidates || (s.Some? && Fills(nodes[v].sets, s.value) && c == Candidate(children[k], s.value));
    }
  }

  lemma NoneFound(nodes: seq<EntryNode>, rank: seq<nat>, v: nat, children: seq<nat>)
    requires Acyclic(nodes, rank) && v < |nodes|
    ensures Found(nodes, rank, v, children, 0, [])
  {
  }

  lemma AllFound(nodes: seq<EntryNode>, rank: seq<nat>, v: nat, children: seq<nat>, candidates: seq<Candidate>)
    requires Acyclic(nodes, rank) && v < |nodes| && forall c :: c in nodes[v].children <==> c in children
    requires Found(nodes, rank, v, children, |children|, candidates)
    ensures forall c :: c in candidates <==> Proper(nodes, rank, v, c)
  {
    assert children[..|children|] == children;
  }

  function IdOf(c: Option<Candidate>): Option<nat> {
    if c.Some? then Some(c.value.id) else None
  }

  function ChoiceOf(cp: Option<Candidate>, feat: Option<Candidate>, ds: Option<Candidate>): Choice {
    Choice(IdOf(cp), IdOf(feat), IdOf(ds))
  }

  function TestSets(sets: SubsetDefinition, cp: Option<Candidate>, feat: Option<Candidate>, ds: Option<Candidate>): SubsetDefinition {
    SubsetDefinition(
      if cp.Some? then cp.value.sets.codepoints else sets.codepoints,
      if feat.Some? then feat.value.sets.features else sets.features,
      if ds.Some? then ds.value.sets.space else sets.space)
  }

  ghost predicate ForCodepoints(nodes: seq<EntryNode>, rank: seq<nat>, v: nat, c: Option<Candidate>)
    requires Acyclic(nodes, rank) && v < |nodes|
  {
    c.Some? ==> Proper(nodes, rank, v, c.value) && c.value.sets.codepoints != {}
  }

  ghost predicate ForFeatures(nodes: seq<EntryNode>, rank: seq<nat>, v: nat, c: Option<Candidate>)
    requires Acyclic(nodes, rank) && v < |nodes|
  {
    c.Some? ==> Proper(nodes, rank, v, c.value) && c.value.sets.features != {}
  }

  ghost predicate ForSpace(nodes: seq<EntryNode>, rank: seq<nat>, v: nat, c: Option<Candidate>)
    requires Acyclic(nodes, rank) && v < |nodes|
  {
    c.Some? ==> Proper(nodes, rank, v, c.value) && c.value.sets.space != map[]
  }

  ghost predicate IsCombo(nodes: seq<EntryNode>, rank: seq<nat>, v: nat, cp: Option<Candidate>, feat: Option<Candidate>, ds: Option<Candidate>)
    requires Acyclic(nodes, rank) && v < |nodes|
  {
    ForCodepoints(nodes, rank, v, cp) && ForFeatures(nodes, rank, v, feat) && ForSpace(nodes, rank, v, ds)
  }

  lemma ComboIsChoice(nodes: seq<EntryNode>, rank: seq<nat>, v: nat, cp: Option<Candidate>, feat: Option<Candidate>, ds: Option<Candidate>)
    requires Acyclic(nodes, rank) && v < |nodes| && IsCombo(nodes, rank, v, cp, feat, ds)
    ensures ChoiceInRange(nodes, rank, v, ChoiceOf(cp, feat, ds))
    ensures InRange(nodes, ToVector(ChoiceOf(cp, feat, ds).Ids()))
    ensures ChosenSets(nodes, rank, v, ChoiceOf(cp, feat, ds)) == TestSets(nodes[v].sets, cp, feat, ds)
  {
    ChoiceIsChildren(nodes, rank, v, ChoiceOf(cp, feat, ds));
    DetachedAcyclic(nodes, rank, v, ChoiceOf(cp, feat, ds).Ids());
  }

  /** The node as it would be, and what that would save. */
  lemma ComboResult(cost: CostModel, nodes: seq<EntryNode>, counts: seq<nat>, rank: seq<nat>, v: nat, choice: Choice,
                    sets: SubsetDefinition, testNode: EntryNode, combo: SubsumptionResult)
    requires Acyclic(nodes, rank) && v < |nodes| && |nodes| == |counts| && ChoiceInRange(nodes, rank, v, choice)
    requires nodes[v].mode == AND && choice.Ids() != {}
    requires sets == ChosenSets(nodes, rank, v, choice)
    requires testNode == nodes[v].(sets := sets, children := nodes[v].children - choice.Ids())
    requires combo == SubsumptionResult(
      NodeCost(cost, testNode) as int - NodeCost(cost, nodes[v]) as int - Freed(cost, nodes, counts, choice.Ids()),
      choice.Ids(), Some(sets.codepoints), Some(sets.features), Some(sets.space))
    ensures IsChoiceResult(cost, nodes, counts, rank, v, choice, combo)
  {
  }

  lemma Improved(cost: CostModel, nodes: seq<EntryNode>, counts: seq<nat>, rank: seq<nat>, v: nat, best: SubsumptionResult,
                 choice: Choice, combo: SubsumptionResult)
    requires Acyclic(nodes, rank) && v < |nodes| && |nodes| == |counts|
    requires FromChoice(cost, nodes, counts, rank, v, best) && IsChoiceResult(cost, nodes, counts, rank, v, choice, combo)
    ensures var r := if combo.costDelta < best.costDelta then combo else best;
            FromChoice(cost, nodes, counts, rank, v, r) && NoWorse(cost, nodes, counts, rank, v, r, choice)
  {
  }

  lemma NothingChosen(cost: CostModel, nodes: seq<EntryNode>, counts: seq<nat>, rank: seq<nat>, v: nat, best: SubsumptionResult, choice: Choice)
    requires Acyclic(nodes, rank) && v < |nodes| && |nodes| == |counts| && choice.Ids() == {}
    ensures NoWorse(cost, nodes, counts, rank, v, best, choice)
  {
  }

  /** Every valid choice is one of the combinations. */
  lemma ChoiceIsCombo(nodes: seq<EntryNode>, rank: seq<nat>, v: nat, choice: Choice)
    returns (cp: Option<Candidate>, feat: Option<Candidate>, ds: Option<Candidate>)
    requires Acyclic(nodes, rank) && v < |nodes| && ValidChoice(nodes, rank, v, choice)
    ensures IsCombo(nodes, rank, v, cp, feat, ds) && choice == ChoiceOf(cp, feat, ds)
  {
    cp := if choice.codepoints.None? then None
          else Some(Candidate(choice.codepoints.value, Summary(nodes, rank, choice.codepoints.value).value));
    feat := if choice.features.None? then None
            else Some(Candidate(choice.features.value, Summary(nodes, rank, choice.features.value).value));
    ds := if choice.space.None? then None
          else Some(Candidate(choice.space.value, Summary(nodes, rank, choice.space.value).value));
  }

  /** When no set is empty nothing can be chosen. */
  lemma NothingToFill(nodes: seq<EntryNode>, rank: seq<nat>, v: nat, choice: Choice)
    requires Acyclic(nodes, rank) && v < |nodes| && ValidChoice(nodes, rank, v, choice)
    requires nodes[v].sets.NonEmptySets() == 3
    ensures choice.Ids() == {}
  {
  }

  /** The candidates for each kind of set, and none. */
  ghost predicate Lists(nodes: seq<EntryNode>, rank: seq<nat>, v: nat, cps: seq<Option<Candidate>>, feats: seq<Option<Candidate>>,
                        dss: seq<Option<Candidate>>)
    requires Acyclic(nodes, rank) && v < |nodes|
  {
    && (forall c :: c in cps <==> ForCodepoints(nodes, rank, v, c))
    && (forall c :: c in feats <==> ForFeatures(nodes, rank, v, c))
    && (forall c :: c in dss <==> ForSpace(nodes, rank, v, c))
  }

  lemma ListsCombine(nodes: seq<EntryNode>, rank: seq<nat>, v: nat, cps: seq<Option<Candidate>>, feats: seq<Option<Candidate>>,
                     dss: seq<Option<Candidate>>, a: nat, b: nat, c: nat)
    requires Acyclic(nodes, rank) && v < |nodes| && Lists(nodes, rank, v, cps, feats, dss)
    requires a < |cps| && b < |feats| && c < |dss|
    ensures IsCombo(nodes, rank, v, cps[a], feats[b], dss[c])
  {
    assert cps[a] in cps && feats[b] in feats && dss[c] in dss;
  }

  /** The candidates up to n, split by kind. */
  ghost predicate SplitUpTo(candidates: seq<Candidate>, n: nat, cps: seq<Option<Candidate>>, feats: seq<Option<Candidate>>,
                            dss: seq<Option<Candidate>>)
    requires n <= |candidates|
  {
    && (forall c :: c in cps <==> c == None || (c.value in candidates[..n] && c.value.sets.codepoints != {}))
    && (forall c :: c in feats <==> c == None || (c.value in candidates[..n] && c.value.sets.features != {}))
    && (forall c :: c in dss <==> c == None || (c.value in candidates[..n] && c.value.sets.space != map[]))
  }

  lemma SplitNext(candidates: seq<Candidate>, n: nat, cps: seq<Option<Candidate>>, feats: seq<Option<Candidate>>, dss: seq<Option<Candidate>>)
    requires n < |candidates| && SplitUpTo(candidates, n, cps, feats, dss)
    ensures var c := candidates[n];
            SplitUpTo(candidates, n + 1,
              if c.sets.codepoints != {} then cps + [Some(c)] else cps,
              if c.sets.features != {} then feats + [Some(c)] else feats,
              if c.sets.space != map[] then dss + [Some(c)] else dss)
  {
    assert candidates[..n + 1] == candidates[..n] + [candidates[n]];
  }

  lemma SplitAll(nodes: seq<EntryNode>, rank: seq<nat>, v: nat, candidates: seq<Candidate>, cps: seq<Option<Candidate>>,
                 feats: seq<Option<Candidate>>, dss: seq<Option<Candidate>>)
    requires Acyclic(nodes, rank) && v < |nodes| && forall c :: c in candidates <==> Proper(nodes, rank, v, c)
    requires SplitUpTo(candidates, |candidates|, cps, feats, dss)
    ensures Lists(nodes, rank, v, cps, feats, dss)
  {
    assert candidates[..|candidates|] == candidates;
  }

  method SplitCandidates(candidates: seq<Candidate>)
    returns (cps: seq<Option<Candidate>>, feats: seq<Option<Candidate>>, dss: seq<Option<Candidate>>)
    ensures SplitUpTo(candidates, |candidates|, cps, feats, dss)
  {
    cps, feats, dss := [None], [None], [None];
    for n := 0 to |candidates|
      invariant SplitUpTo(candidates, n, cps, feats, dss)
    {
      hide SplitUpTo;
      SplitNext(candidates, n, cps, feats, dss);
      var c := candidates[n];
      if c.sets.codepoints != {} {
        cps := cps + [Some(c)];
      }
      if c.sets.features != {} {
        feats := feats + [Some(c)];
      }
      if c.sets.space != map[] {
        dss := dss + [Some(c)];
      }
    }
  }

  /** All combinations before (a, b, c) have been tried. */
  ghost predicate TestedBefore(cost: CostModel, nodes: seq<EntryNode>, counts: seq<nat>, rank: seq<nat>, v: nat,
                               cps: seq<Option<Candidate>>, feats: seq<Option<Candidate>>, dss: seq<Option<Candidate>>,
                               a: nat, b: nat, c: nat, best: SubsumptionResult)
    requires Acyclic(nodes, rank) && v < |nodes| && |nodes| == |counts|
  {
    forall i, j, k :: 0 <= i < |cps| && 0 <= j < |feats| && 0 <= k < |dss| && (i < a || (i == a && (j < b || (j == b && k < c)))) ==>
      NoWorse(cost, nodes, counts, rank, v, best, ChoiceOf(cps[i], feats[j], dss[k]))
  }

  lemma TestedNext(cost: CostModel, nodes: seq<EntryNode>, counts: seq<nat>, rank: seq<nat>, v: nat,
                   cps: seq<Option<Candidate>>, feats: seq<Option<Candidate>>, dss: seq<Option<Candidate>>,
                   a: nat, b: nat, c: nat, before: SubsumptionResult, best: SubsumptionResult)
    requires Acyclic(nodes, rank) && v < |nodes| && |nodes| == |counts| && a < |cps| && b < |feats| && c < |dss|
    requires TestedBefore(cost, nodes, counts, rank, v, cps, feats, dss, a, b, c, before) && best.costDelta <= before.costDelta
    requires NoWorse(cost, nodes, counts, rank, v, best, ChoiceOf(cps[a], feats[b], dss[c]))
    ensures TestedBefore(cost, nodes, counts, rank, v, cps, feats, dss, a, b, c + 1, best)
  {
    hide ChoiceOf, ChoiceResult, ChoiceInRange;
  }

  lemma TestedCarry(cost: CostModel, nodes: seq<EntryNode>, counts: seq<nat>, rank: seq<nat>, v: nat,
                    cps: seq<Option<Candidate>>, feats: seq<Option<Candidate>>, dss: seq<Option<Candidate>>,
                    a: nat, b: nat, best: SubsumptionResult)
    requires Acyclic(nodes, rank) && v < |nodes| && |nodes| == |counts|
    ensures TestedBefore(cost, nodes, counts, rank, v, cps, feats, dss, a, b, |dss|, best) ==>
              TestedBefore(cost, nodes, counts, rank, v, cps, feats, dss, a, b + 1, 0, best)
    ensures TestedBefore(cost, nodes, counts, rank, v, cps, feats, dss, a, |feats|, 0, best) ==>
              TestedBefore(cost, nodes, counts, rank, v, cps, feats, dss, a + 1, 0, 0, best)
    ensures TestedBefore(cost, nodes, counts, rank, v, cps, feats, dss, 0, 0, 0, best)
  {
    hide ChoiceOf, NoWorse;
  }

  lemma AllTested(cost: CostModel, nodes: seq<EntryNode>, counts: seq<nat>, rank: seq<nat>, v: nat,
                  cps: seq<Option<Candidate>>, feats: seq<Option<Candidate>>, dss: seq<Option<Candidate>>, best: SubsumptionResult)
    requires Acyclic(nodes, rank) && v < |nodes| && |nodes| == |counts| && Lists(nodes, rank, v, cps, feats, dss)
    requires TestedBefore(cost, nodes, counts, rank, v, cps, feats, dss, |cps|, 0, 0, best)
    requires FromChoice(cost, nodes, counts, rank, v, best)
    ensures ConjunctiveResult(cost, nodes, counts, rank, v, best)
  {
    hide NoWorse, FromChoice, ForCodepoints, ForFeatures, ForSpace, ChoiceOf;
    forall choice | ValidChoice(nodes, rank, v, choice) ensures NoWorse(cost, nodes, counts, rank, v, best, choice) {
      hide ValidChoice;
      var cp, feat, ds := ChoiceIsCombo(nodes, rank, v, choice);
      assert cp in cps && feat in feats && ds in dss;
      var i :| 0 <= i < |cps| && cps[i] == cp;
      var j :| 0 <= j < |feats| && feats[j] == feat;
      var k :| 0 <= k < |dss| && dss[k] == ds;
      assert NoWorse(cost, nodes, counts, rank, v, best, ChoiceOf(cps[i], feats[j], dss[k]));
    }
  }

  lemma NotFoundYet(cost: CostModel, nodes: seq<EntryNode>, counts: seq<nat>, rank: seq<nat>, v: nat)
    requires Acyclic(nodes, rank) && v < |nodes| && |nodes| == |counts|
    ensures FromChoice(cost, nodes, counts, rank, v, NOT_FOUND)
    ensures nodes[v].sets.NonEmptySets() == 3 ==> ConjunctiveResult(cost, nodes, counts, rank, v, NOT_FOUND)
  {
    if nodes[v].sets.NonEmptySets() == 3 {
      forall choice | ValidChoice(nodes, rank, v, choice) ensures NoWorse(cost, nodes, counts, rank, v, NOT_FOUND, choice) {
        NothingToFill(nodes, rank, v, choice);
      }
    }
  }

  /** All conjunctive results for a node cost the same. */
  lemma ConjunctiveDeltaUnique(cost: CostModel, nodes: seq<EntryNode>, counts: seq<nat>, rank: seq<nat>, v: nat,
                               r: SubsumptionResult, r': SubsumptionResult)
    requires Acyclic(nodes, rank) && v < |nodes| && |nodes| == |counts|
    requires ConjunctiveResult(cost, nodes, counts, rank, v, r) && ConjunctiveResult(cost, nodes, counts, rank, v, r')
    requires r.costDelta >= 0
    ensures r'.costDelta >= 0
  {
    if r' != NOT_FOUND {
      var choice :| IsChoiceResult(cost, nodes, counts, rank, v, choice, r');
      hide ChoiceResult, ChoiceInRange, ValidChoice, Acyclic;
      assert ValidChoice(nodes, rank, v, choice) by { ChoiceIsValid(nodes, rank, v, choice); }
      assert NoWorse(cost, nodes, counts, rank, v, r, choice);
    }
  }

  lemma ChoiceIsValid(nodes: seq<EntryNode>, rank: seq<nat>, v: nat, choice: Choice)
    requires Acyclic(nodes, rank) && v < |nodes| && ChoiceInRange(nodes, rank, v, choice)
    ensures ValidChoice(nodes, rank, v, choice)
  {
  }
}
