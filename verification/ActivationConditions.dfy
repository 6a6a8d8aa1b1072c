/** Activation conditions: monotone boolean conditions over segments, kept in canonical conjunctive normal form. */
module ActivationConditions {
  import opened IntSets
  import opened SegmentGroups

  datatype PatchEncoding = DEFAULT_ENCODING | TABLE_KEYED_FULL | TABLE_KEYED_PARTIAL | GLYPH_KEYED

  datatype ActivationCondition = ActivationCondition(
    groups: seq<Group>, activated: seq<nat>, isFallback: bool, isExclusive: bool, encoding: PatchEncoding)
  {
    ghost predicate Valid() {
      Canonical(groups) && activated != []
    }

    /** The condition is met when the segments `active` are. */
    ghost predicate HoldsFor(active: set<nat>) {
      Holds(groups, active)
    }

    predicate IsAlwaysTrue() {
      |groups| == 0
    }

    predicate IsUnitary() {
      |groups| == 1 && |groups[0]| == 1
    }

    predicate IsPurelyDisjunctive() {
      |groups| == 1
    }

    predicate IsPurelyConjunctive() {
      |groups| > 1 && forall g :: g in groups ==> |g| <= 1
    }

    function TriggeringSegments(): (r: set<nat>)
      ensures forall x :: x in r <==> exists g :: g in groups && x in g
    {
      set i, x | 0 <= i < |groups| && x in groups[i] :: x
    }
  }

  lemma SimplifiedHolds(groups: seq<Group>, r: seq<Group>, active: set<nat>)
    requires Simplified(groups, r)
    ensures Holds(r, active) <==> Holds(groups, active)
  {
    OnlyMinimalMatter(groups, r, active);
  }

  lemma HoldsConcat(a: seq<Group>, b: seq<Group>, active: set<nat>)
    ensures Holds(a + b, active) <==> Holds(a, active) && Holds(b, active)
  {
    if Holds(a + b, active) {
      assert forall i :: 0 <= i < |a| ==> a[i] == (a + b)[i];
      assert forall i :: 0 <= i < |b| ==> b[i] == (a + b)[|a| + i];
    }
  }

  lemma HoldsMembers(groups: seq<Group>, active: set<nat>)
    ensures Holds(groups, active) <==> forall g :: g in groups ==> g * active != {}
  {
    if forall g :: g in groups ==> g * active != {} {
      forall i | 0 <= i < |groups| ensures groups[i] * active != {} {
        assert groups[i] in groups;
      }
    }
  }

  lemma SingleGroup(g: Group)
    ensures Canonical([g])
    ensures forall active :: Holds([g], active) <==> g * active != {}
  {
    forall active ensures Holds([g], active) <==> g * active != {} {
      assert [g][0] == g;
    }
  }

  lemma SingletonMeets(x: nat, active: set<nat>)
    ensures {x} * active != {} <==> x in active
  {
    if x in active {
      assert x in {x} * active;
    }
  }

  // ---------- what the shapes of a condition mean ----------

  /** The condition is met when one of the segments is active, or when all are. */
  ghost predicate IsMetBySome(c: ActivationCondition, ids: set<nat>) {
    forall active :: c.HoldsFor(active) <==> ids * active != {}
  }

  ghost predicate IsMetByAll(c: ActivationCondition, ids: set<nat>) {
    forall active :: c.HoldsFor(active) <==> ids <= active
  }

  lemma MetBySome(c: ActivationCondition, ids: set<nat>)
    requires c.Valid()
    ensures IsMetBySome(c, ids) <==> c.groups == [ids]
  {
    hide Canonical;
    SingleGroup(ids);
    if IsMetBySome(c, ids) {
      CanonicalUnique(c.groups, [ids]);
    }
  }

  lemma SingletonsMean(ids: set<nat>, groups: seq<Group>)
    requires groups == Singletons(ToVector(ids))
    ensures Canonical(groups) && forall active :: Holds(groups, active) <==> ids <= active
  {
    hide Canonical;
    SingletonMembers(ids, groups);
    forall active ensures Holds(groups, active) <==> ids <= active {
      AllSingletonsMet(ids, groups, active);
    }
  }

  lemma AllSingletonsMet(ids: set<nat>, groups: seq<Group>, active: set<nat>)
    requires forall g :: g in groups <==> exists x :: x in ids && g == {x}
    ensures Holds(groups, active) <==> ids <= active
  {
    HoldsMembers(groups, active);
    forall x | x in ids ensures {x} in groups && ({x} * active != {} <==> x in active) {
      SingletonMeets(x, active);
    }
  }

  lemma MetByAll(c: ActivationCondition, ids: set<nat>)
    requires c.Valid()
    ensures IsMetByAll(c, ids) <==> c.groups == Singletons(ToVector(ids))
  {
    hide Canonical, Singletons, ToVector;
    SingletonsMean(ids, Singletons(ToVector(ids)));
    if IsMetByAll(c, ids) {
      CanonicalUnique(c.groups, Singletons(ToVector(ids)));
    }
  }

  /** In canonical form, the shape of the groups says what kind of condition it is: always true, a disjunction, a single
      segment, or a conjunction of more than one. */
  lemma ShapesMean(c: ActivationCondition)
    requires c.Valid()
    ensures c.IsAlwaysTrue() <==> IsMetByAll(c, {})
    ensures c.IsPurelyDisjunctive() <==> exists ids :: IsMetBySome(c, ids)
    ensures c.IsUnitary() <==> exists s :: IsMetBySome(c, {s})
    ensures c.IsPurelyConjunctive() <==> exists ids :: |ids| > 1 && IsMetByAll(c, ids)
  {
    hide Canonical, IsMetBySome, IsMetByAll, ToVector, Singletons;
    MetByAll(c, {});
    assert Singletons(ToVector({})) == [] by { NoSingletons(); }
    if |c.groups| == 1 {
      MetBySome(c, c.groups[0]);
      assert c.groups == [c.groups[0]];
      if |c.groups[0]| == 1 {
        var s :| s in c.groups[0];
        SingleOf(c.groups[0], s);
      }
    }
    forall ids ensures IsMetBySome(c, ids) <==> c.groups == [ids] {
      MetBySome(c, ids);
    }
    assert forall s: nat :: |{s}| == 1;
    ConjunctionMeans(c);
  }

  lemma NoSingletons()
    ensures Singletons(ToVector({})) == []
  {
  }

  lemma ConjunctionMeans(c: ActivationCondition)
    requires c.Valid()
    ensures c.IsPurelyConjunctive() <==> exists ids :: |ids| > 1 && IsMetByAll(c, ids)
  {
    hide Canonical, IsMetByAll, ToVector, Singletons;
    if c.IsPurelyConjunctive() {
      var ids := c.TriggeringSegments();
      assert NoEmptyGroup(c.groups) by { CanonicalNotEmpty(c.groups); }
      ConjunctionIsAll(c, ids);
    }
    if ids :| |ids| > 1 && IsMetByAll(c, ids) {
      MetByAll(c, ids);
      SingletonMembers(ids, c.groups);
      SingletonsLength(ToVector(ids));
      forall g | g in c.groups ensures |g| <= 1 {
      }
    }
  }

  lemma {:induction false} SingletonsLength(ids: seq<nat>)
    ensures |Singletons(ids)| == |ids|
  {
  }

  lemma ConjunctionIsAll(c: ActivationCondition, ids: set<nat>)
    requires c.Valid() && c.IsPurelyConjunctive() && NoEmptyGroup(c.groups) && ids == c.TriggeringSegments()
    ensures |ids| > 1 && IsMetByAll(c, ids)
  {
    hide Canonical;
    forall g ensures g in c.groups <==> exists x :: x in ids && g == {x} {
      if g in c.groups {
        var x :| x in g;
        SingleOf(g, x);
      }
      if x :| x in ids && g == {x} {
        var h :| h in c.groups && x in h;
        SingleOf(h, x);
      }
    }
    forall active ensures c.HoldsFor(active) <==> ids <= active {
      AllSingletonsMet(ids, c.groups, active);
    }
    assert c.groups[0] in c.groups && c.groups[1] in c.groups;
    var x :| x in c.groups[0];
    var y :| y in c.groups[1];
    assert c.groups[0] != c.groups[1] by { TwoDiffer(c.groups); }
    SingleOf(c.groups[0], x);
    SingleOf(c.groups[1], y);
    assert {x, y} <= ids && |{x, y}| == 2;
    SubsetSize({x, y}, ids);
  }

  lemma CanonicalNotEmpty(groups: seq<Group>)
    requires Canonical(groups) && |groups| > 1
    ensures NoEmptyGroup(groups)
  {
    SeveralNotEmpty(groups);
  }

  lemma TwoDiffer(groups: seq<Group>)
    requires Canonical(groups) && |groups| > 1
    ensures groups[0] != groups[1]
  {
  }

  /** The patch that a condition activates, whether it is a fallback, and whether it counts as exclusive. */
  ghost predicate IsFor(c: ActivationCondition, activated: nat, isFallback: bool, isExclusive: bool) {
    c.activated == [activated] && c.isFallback == isFallback && c.isExclusive == isExclusive && c.encoding == GLYPH_KEYED
  }

  // ---------- construction ----------

  function True(activated: nat): (c: ActivationCondition)
    ensures c.Valid() && forall active :: c.HoldsFor(active)
    ensures IsFor(c, activated, false, false)
  {
    ActivationCondition([], [activated], false, false, GLYPH_KEYED)
  }

  function ExclusiveSegment(index: nat, activated: nat): (c: ActivationCondition)
    ensures c.Valid() && forall active :: c.HoldsFor(active) <==> index in active
    ensures IsFor(c, activated, false, true)
  {
    SingleGroup({index});
    assert forall active: set<nat> :: {index} * active != {} <==> index in active by {
      forall active: set<nat> ensures {index} * active != {} <==> index in active {
        SingletonMeets(index, active);
      }
    }
    ActivationCondition([{index}], [activated], false, true, GLYPH_KEYED)
  }

  function OrSegments(ids: set<nat>, activated: nat, isFallback: bool): (c: ActivationCondition)
    ensures c.Valid() && forall active :: c.HoldsFor(active) <==> ids * active != {}
    ensures IsFor(c, activated, isFallback, false)
  {
    SingleGroup(ids);
    ActivationCondition([ids], [activated], isFallback, false, GLYPH_KEYED)
  }

  ghost function Singletons(ids: seq<nat>): seq<Group> {
    seq(|ids|, i requires 0 <= i < |ids| => {ids[i]})
  }

  lemma SingletonOrder(x: nat, y: nat)
    ensures SetLess({x}, {y}) <==> x < y
  {
    hide ToVector;
    SingletonVector(x);
    SingletonVector(y);
    LexSingle(x, y);
  }

  lemma LexSingle(x: nat, y: nat)
    ensures Lex([x], [y]) <==> x < y
  {
    assert [x][1..] == [] && [y][1..] == [];
  }

  lemma SingletonVector(x: nat)
    ensures ToVector({x}) == [x]
  {
    assert x in ToVector({x});
    assert |ToVector({x})| == 1;
  }

  lemma SingletonsCanonical(ids: seq<nat>)
    requires Ascending(ids)
    ensures Canonical(Singletons(ids))
  {
    hide SetLess;
    forall i, j | 0 <= i < j < |ids| ensures SetLess({ids[i]}, {ids[j]}) {
      SingletonOrder(ids[i], ids[j]);
    }
    forall i, j | 0 <= i < |ids| && 0 <= j < |ids| && i != j ensures !({ids[i]} <= {ids[j]}) {
      assert ids[i] != ids[j];
      assert ids[i] in {ids[i]};
    }
  }

  lemma SingletonMembers(ids: set<nat>, groups: seq<Group>)
    requires groups == Singletons(ToVector(ids))
    ensures Canonical(groups)
    ensures forall g :: g in groups <==> exists x :: x in ids && g == {x}
  {
    var v := ToVector(ids);
    SingletonsCanonical(v);
    hide Canonical, ToVector;
    forall g ensures g in groups <==> exists x :: x in ids && g == {x} {
      if x :| x in ids && g == {x} {
        assert x in v;
        var i :| 0 <= i < |v| && v[i] == x;
        assert groups[i] == g;
      }
      if g in groups {
        var i :| 0 <= i < |groups| && groups[i] == g;
        assert v[i] in v;
      }
    }
  }

  /** One group for each segment, in order. */
  method SingletonGroups(ids: set<nat>) returns (groups: seq<Group>)
    ensures Canonical(groups)
    ensures forall g :: g in groups <==> exists x :: x in ids && g == {x}
    ensures |groups| == |ids|
  {
    var v := ToVector(ids);
    groups := [];
    for i := 0 to |v|
      invariant groups == Singletons(v[..i])
    {
      groups := groups + [{v[i]}];
    }
    assert v[..|v|] == v;
    SingletonMembers(ids, groups);
  }

  method AndSegments(ids: set<nat>, activated: nat) returns (c: ActivationCondition)
    ensures c.Valid() && forall active :: c.HoldsFor(active) <==> ids <= active
    ensures IsFor(c, activated, false, false)
  {
    var groups := SingletonGroups(ids);
    forall active ensures Holds(groups, active) <==> ids <= active {
      HoldsMembers(groups, active);
      forall x | x in ids ensures {x} in groups && ({x} * active != {} <==> x in active) {
        SingletonMeets(x, active);
      }
    }
    c := ActivationCondition(groups, [activated], false, false, GLYPH_KEYED);
  }

  method CompositeCondition(groups: seq<Group>, activated: nat, isFallback: bool) returns (c: ActivationCondition)
    ensures c.Valid() && IsFor(c, activated, isFallback, false)
    ensures Simplified(groups, c.groups)
    ensures forall active :: c.HoldsFor(active) <==> Holds(groups, active)
  {
    var simplified := Simplify(groups);
    forall active ensures Holds(simplified, active) <==> Holds(groups, active) {
      SimplifiedHolds(groups, simplified, active);
    }
    c := ActivationCondition(simplified, [activated], isFallback, false, GLYPH_KEYED);
  }

  // ---------- and, or ----------

  method And(a: ActivationCondition, b: ActivationCondition) returns (c: ActivationCondition)
    requires a.Valid() && b.Valid()
    ensures c.Valid() && forall active :: c.HoldsFor(active) <==> a.HoldsFor(active) && b.HoldsFor(active)
    ensures c.activated == a.activated && c.isFallback == a.isFallback && c.encoding == a.encoding
    ensures c.isExclusive <==> (a.isExclusive || a.IsAlwaysTrue()) && (b.isExclusive || b.IsAlwaysTrue()) && c.IsUnitary()
  {
    var aExclusive := a.isExclusive || a.IsAlwaysTrue();
    var bExclusive := b.isExclusive || b.IsAlwaysTrue();
    var groups := Simplify(a.groups + b.groups);
    forall active ensures Holds(groups, active) <==> a.HoldsFor(active) && b.HoldsFor(active) {
      SimplifiedHolds(a.groups + b.groups, groups, active);
      HoldsConcat(a.groups, b.groups, active);
    }
    c := a.(groups := groups);
    c := c.(isExclusive := aExclusive && bExclusive && c.IsUnitary());
  }

  /** `groups` is split into what is common and what is its own. */
  ghost predicate SplitInto(groups: seq<Group>, common: seq<Group>, own: seq<Group>) {
    forall g :: g in groups <==> g in common || g in own
  }

  lemma SplitHolds(groups: seq<Group>, common: seq<Group>, own: seq<Group>, active: set<nat>)
    requires SplitInto(groups, common, own)
    ensures Holds(groups, active) <==> Holds(common, active) && Holds(own, active)
  {
    HoldsMembers(groups, active);
    HoldsMembers(common, active);
    HoldsMembers(own, active);
  }

  lemma TakeMore(groups: seq<Group>, i: nat)
    requires i < |groups|
    ensures forall g :: g in groups[..i + 1] <==> g in groups[..i] || g == groups[i]
  {
    assert groups[..i + 1] == groups[..i] + [groups[i]];
  }

  /** Walks two sorted lists at once: equal groups are common, the others belong to one side. */
  method CommonGroups(a: seq<Group>, b: seq<Group>) returns (common: seq<Group>, aUnique: seq<Group>, bUnique: seq<Group>)
    requires Sorted(a) && Sorted(b)
    ensures SplitInto(a, common, aUnique) && SplitInto(b, common, bUnique)
    ensures Sorted(common) && forall g :: g in common ==> g in a
  {
    hide SetLess;
    common, aUnique, bUnique := [], [], [];
    var i, j := 0, 0;
    while i < |a| && j < |b|
      invariant i <= |a| && j <= |b|
      invariant SplitInto(a[..i], common, aUnique) && SplitInto(b[..j], common, bUnique)
      invariant Sorted(common)
      decreases |a| - i + |b| - j
    {
      TakeMore(a, i);
      TakeMore(b, j);
      SetOrder(a[i], b[j]);
      if SetLess(a[i], b[j]) {
        aUnique := aUnique + [a[i]];
        i := i + 1;
      } else if SetLess(b[j], a[i]) {
        bUnique := bUnique + [b[j]];
        j := j + 1;
      } else {
        CommonStaysSorted(a, i, common, aUnique);
        common := common + [a[i]];
        i, j := i + 1, j + 1;
      }
    }
    while i < |a|
      invariant i <= |a| && SplitInto(a[..i], common, aUnique)
    {
      TakeMore(a, i);
      aUnique := aUnique + [a[i]];
      i := i + 1;
    }
    while j < |b|
      invariant j <= |b| && SplitInto(b[..j], common, bUnique)
    {
      TakeMore(b, j);
      bUnique := bUnique + [b[j]];
      j := j + 1;
    }
    assert a[..|a|] == a && b[..|b|] == b;
  }

  lemma CommonStaysSorted(a: seq<Group>, i: nat, common: seq<Group>, own: seq<Group>)
    requires Sorted(a) && i < |a| && SplitInto(a[..i], common, own) && Sorted(common)
    ensures Sorted(common + [a[i]])
  {
    forall k | 0 <= k < |common| ensures SetLess(common[k], a[i]) {
      assert common[k] in common;
      var m :| 0 <= m < i && a[m] == common[k];
    }
  }

  ghost predicate IsCross(a: seq<Group>, b: seq<Group>, cross: seq<Group>) {
    && (forall x, y :: x in a && y in b ==> x + y in cross)
    && (forall g :: g in cross ==> exists x, y :: x in a && y in b && g == x + y)
  }

  method CrossProduct(a: seq<Group>, b: seq<Group>) returns (cross: seq<Group>)
    ensures IsCross(a, b, cross)
  {
    cross := [];
    for i := 0 to |a|
      invariant IsCross(a[..i], b, cross)
    {
      TakeMore(a, i);
      ghost var before := cross;
      var row := Row(a[i], b);
      cross := cross + row;
      AddRow(a, i, b, before, row);
    }
    assert a[..|a|] == a;
  }

  method Row(x: Group, b: seq<Group>) returns (row: seq<Group>)
    ensures |row| == |b| && forall j :: 0 <= j < |b| ==> row[j] == x + b[j]
  {
    row := [];
    for j := 0 to |b|
      invariant |row| == j && forall k :: 0 <= k < j ==> row[k] == x + b[k]
    {
      row := row + [x + b[j]];
    }
  }

  lemma AddRow(a: seq<Group>, i: nat, b: seq<Group>, cross: seq<Group>, row: seq<Group>)
    requires i < |a| && IsCross(a[..i], b, cross)
    requires |row| == |b| && forall j :: 0 <= j < |b| ==> row[j] == a[i] + b[j]
    ensures IsCross(a[..i + 1], b, cross + row)
  {
    TakeMore(a, i);
    forall x, y | x in a[..i + 1] && y in b ensures x + y in cross + row {
      if x !in a[..i] {
        var j :| 0 <= j < |b| && b[j] == y;
        assert row[j] == x + y;
      }
    }
    forall g | g in cross + row ensures exists x, y :: x in a[..i + 1] && y in b && g == x + y {
      if g in cross {
        var x, y :| x in a[..i] && y in b && g == x + y;
        assert x in a[..i + 1];
      } else {
        var j :| 0 <= j < |row| && row[j] == g;
        assert a[i] in a[..i + 1] && b[j] in b;
      }
    }
  }

  lemma CrossHolds(a: seq<Group>, b: seq<Group>, cross: seq<Group>, active: set<nat>)
    requires IsCross(a, b, cross)
    ensures Holds(cross, active) <==> Holds(a, active) || Holds(b, active)
  {
    HoldsMembers(a, active);
    HoldsMembers(b, active);
    HoldsMembers(cross, active);
    if Holds(a, active) || Holds(b, active) {
      forall g | g in cross ensures g * active != {} {
        var x, y :| x in a && y in b && g == x + y;
        assert g * active == x * active + y * active;
      }
    } else {
      var x :| x in a && x * active == {};
      var y :| y in b && y * active == {};
      assert (x + y) * active == x * active + y * active;
      assert x + y in cross;
    }
  }

  /** Or: groups that both sides share are factored out, the others are combined pairwise. */
  method Or(a: ActivationCondition, b: ActivationCondition) returns (c: ActivationCondition)
    requires a.Valid() && b.Valid()
    ensures c.Valid() && forall active :: c.HoldsFor(active) <==> a.HoldsFor(active) || b.HoldsFor(active)
    ensures c.activated == a.activated && c.isFallback == a.isFallback && c.encoding == a.encoding && !c.isExclusive
  {
    var common, aUnique, bUnique := CommonGroups(a.groups, b.groups);
    var groups := common;
    if aUnique == [] || bUnique == [] {
      SubsetOfCanonical(a.groups, common);
      forall active ensures Holds(common, active) <==> a.HoldsFor(active) || b.HoldsFor(active) {
        SplitHolds(a.groups, common, aUnique, active);
        SplitHolds(b.groups, common, bUnique, active);
      }
    } else {
      var cross := CrossProduct(aUnique, bUnique);
      groups := Simplify(common + cross);
      forall active ensures Holds(groups, active) <==> a.HoldsFor(active) || b.HoldsFor(active) {
        SimplifiedHolds(common + cross, groups, active);
        HoldsConcat(common, cross, active);
        CrossHolds(aUnique, bUnique, cross, active);
        SplitHolds(a.groups, common, aUnique, active);
        SplitHolds(b.groups, common, bUnique, active);
      }
    }
    c := ActivationCondition(groups, a.activated, a.isFallback, false, a.encoding);
  }

  // ---------- replacing segments ----------

  /** One group with the segments `s` renamed to `base`. */
  function ReplaceIn(g: Group, base: nat, s: set<nat>): Group {
    if g * s != {} then (g - s) + {base} else g
  }

  ghost function Replaced(groups: seq<Group>, base: nat, s: set<nat>): seq<Group> {
    seq(|groups|, i requires 0 <= i < |groups| => ReplaceIn(groups[i], base, s))
  }

  /** The active segments as seen before the renaming: `base` stands for all of `s`. */
  ghost function Renamed(active: set<nat>, base: nat, s: set<nat>): set<nat> {
    (active - s) + (if base in active then s else {})
  }

  lemma ReplacedHolds(groups: seq<Group>, base: nat, s: set<nat>, active: set<nat>)
    ensures Holds(Replaced(groups, base, s), active) <==> Holds(groups, Renamed(active, base, s))
  {
    forall i | 0 <= i < |groups|
      ensures Replaced(groups, base, s)[i] * active != {} <==> groups[i] * Renamed(active, base, s) != {}
    {
      ReplacedGroupHolds(groups[i], base, s, active);
    }
  }

  lemma ReplacedGroupHolds(g: Group, base: nat, s: set<nat>, active: set<nat>)
    ensures ReplaceIn(g, base, s) * active != {} <==> g * Renamed(active, base, s) != {}
  {
    if g * s != {} {
      assert ReplaceIn(g, base, s) * active == (g - s) * active + (if base in active then {base} else {});
      assert g * Renamed(active, base, s) == (g - s) * active + (if base in active then g * s else {});
    } else {
      assert g * active == g * Renamed(active, base, s);
    }
  }

  method ReplaceInGroups(groups: seq<Group>, base: nat, segments: set<nat>) returns (r: seq<Group>)
    ensures r == Replaced(groups, base, segments)
  {
    r := [];
    for i := 0 to |groups|
      invariant r == Replaced(groups, base, segments)[..i]
    {
      r := r + [ReplaceIn(groups[i], base, segments)];
    }
  }

  /** Replacing segments renames them. On a purely conjunctive condition the shortcut gives the same groups. */
  method ReplaceSegments(c: ActivationCondition, base: nat, segments: set<nat>) returns (r: ActivationCondition)
    requires c.Valid()
    ensures r.Valid() && Simplified(Replaced(c.groups, base, segments), r.groups)
    ensures forall active :: r.HoldsFor(active) <==> c.HoldsFor(Renamed(active, base, segments))
    ensures r.activated == c.activated && r.isFallback == c.isFallback && r.encoding == c.encoding
    ensures r.isExclusive <==> c.isExclusive || (c.IsPurelyConjunctive() && |r.groups| == 1)
  {
    hide Canonical, Minimal, Holds, Renamed, Replaced;
    if c.IsPurelyConjunctive() {
      var groups := ReplaceInConjunction(c.groups, base, segments);
      r := ActivationCondition(groups, c.activated, c.isFallback, c.isExclusive || |groups| == 1, c.encoding);
    } else {
      var groups := ReplaceInGroups(c.groups, base, segments);
      groups := Simplify(groups);
      r := c.(groups := groups);
    }
    forall active ensures r.HoldsFor(active) <==> c.HoldsFor(Renamed(active, base, segments)) {
      SimplifiedHolds(Replaced(c.groups, base, segments), r.groups, active);
      ReplacedHolds(c.groups, base, segments, active);
    }
  }

  ghost predicate AllSingle(groups: seq<Group>) {
    forall g :: g in groups ==> |g| == 1
  }

  lemma ConjunctionIsSingle(groups: seq<Group>)
    requires Canonical(groups) && |groups| > 1 && forall g :: g in groups ==> |g| <= 1
    ensures AllSingle(groups)
  {
    forall g | g in groups ensures |g| == 1 {
      var i :| 0 <= i < |groups| && groups[i] == g;
      var j := if i == 0 then 1 else 0;
      assert {} <= groups[j];
    }
  }

  lemma SingleSubset(a: Group, b: Group)
    requires |a| == 1 && |b| == 1
    ensures a <= b ==> a == b
  {
    SmallerSubset(a, b);
  }

  /** `r` lists, in order, the groups before i that do not meet the segments. */
  ghost predicate Untouched(groups: seq<Group>, i: nat, segments: set<nat>, r: seq<Group>)
    requires i <= |groups|
  {
    Sorted(r) && forall g :: g in r <==> g in groups[..i] && g * segments == {}
  }

  lemma UntouchedStep(groups: seq<Group>, i: nat, segments: set<nat>, r: seq<Group>)
    requires i < |groups| && Sorted(groups) && Untouched(groups, i, segments, r)
    ensures Untouched(groups, i + 1, segments, if groups[i] * segments == {} then r + [groups[i]] else r)
  {
    TakeMore(groups, i);
    if groups[i] * segments == {} {
      PickedStaysSorted(groups, i, r);
    }
  }

  method TakeUntouched(groups: seq<Group>, base: nat, segments: set<nat>)
    returns (r: seq<Group>, hasReplace: bool, basePresent: bool)
    requires Sorted(groups)
    ensures Sorted(r) && forall g :: g in r <==> g in groups && g * segments == {}
    ensures hasReplace <==> exists g :: g in groups && g * segments != {}
    ensures basePresent <==> exists g :: g in r && base in g
  {
    r := [];
    hasReplace, basePresent := false, false;
    for i := 0 to |groups|
      invariant Untouched(groups, i, segments, r)
      invariant hasReplace <==> exists g :: g in groups[..i] && g * segments != {}
      invariant basePresent <==> exists g :: g in r && base in g
    {
      TakeMore(groups, i);
      UntouchedStep(groups, i, segments, r);
      if groups[i] * segments != {} {
        hasReplace := true;
      } else {
        if base in groups[i] {
          basePresent := true;
        }
        r := r + [groups[i]];
      }
    }
    assert groups[..|groups|] == groups;
  }

  method ReplaceInConjunction(groups: seq<Group>, base: nat, segments: set<nat>) returns (r: seq<Group>)
    requires Canonical(groups) && |groups| > 1 && forall g :: g in groups ==> |g| <= 1
    ensures Simplified(Replaced(groups, base, segments), r)
  {
    hide SetLess, Simplified, Replaced;
    var hasReplace, basePresent;
    r, hasReplace, basePresent := TakeUntouched(groups, base, segments);
    ConjunctionIsSingle(groups);
    ghost var kept := r;
    if hasReplace && !basePresent {
      var k := LowerBound(r, {base});
      r := r[..k] + [{base}] + r[k..];
      InsertedInOrder(kept, {base}, k);
    }
    ConjunctionReplaced(groups, base, segments, kept, r, hasReplace, basePresent);
  }

  lemma PickedStaysSorted(groups: seq<Group>, i: nat, r: seq<Group>)
    requires Sorted(groups) && i < |groups| && Sorted(r) && forall g :: g in r ==> g in groups[..i]
    ensures Sorted(r + [groups[i]])
  {
    forall k | 0 <= k < |r| ensures SetLess(r[k], groups[i]) {
      assert r[k] in r;
      var m :| 0 <= m < i && groups[m] == r[k];
    }
  }

  /** std::lower_bound. */
  method LowerBound(groups: seq<Group>, g: Group) returns (k: nat)
    requires Sorted(groups)
    ensures k <= |groups| && (forall i :: 0 <= i < k ==> SetLess(groups[i], g))
    ensures forall i :: k <= i < |groups| ==> !SetLess(groups[i], g)
  {
    hide SetLess;
    var hi := |groups|;
    k := 0;
    while k < hi
      invariant k <= hi <= |groups|
      invariant forall i :: 0 <= i < k ==> SetLess(groups[i], g)
      invariant forall i :: hi <= i < |groups| ==> !SetLess(groups[i], g)
    {
      var mid := (k + hi) / 2;
      if SetLess(groups[mid], g) {
        forall i | 0 <= i < mid ensures SetLess(groups[i], g) {
          SetOrderTransitive(groups[i], groups[mid], g);
        }
        k := mid + 1;
      } else {
        forall i | mid < i < |groups| ensures !SetLess(groups[i], g) {
          if SetLess(groups[i], g) {
            SetOrderTransitive(groups[mid], groups[i], g);
          }
        }
        hi := mid;
      }
    }
  }

  lemma InsertedInOrder(groups: seq<Group>, g: Group, k: nat)
    requires Sorted(groups) && g !in groups && k <= |groups| && forall i :: 0 <= i < k ==> SetLess(groups[i], g)
    requires forall i :: k <= i < |groups| ==> !SetLess(groups[i], g)
    ensures Sorted(groups[..k] + [g] + groups[k..])
    ensures forall x :: x in groups[..k] + [g] + groups[k..] <==> x in groups || x == g
  {
    hide SetLess;
    forall i | k <= i < |groups| ensures SetLess(g, groups[i]) {
      assert groups[i] in groups;
      SetOrder(groups[i], g);
    }
    assert groups == groups[..k] + groups[k..];
  }

  lemma ConjunctionReplaced(groups: seq<Group>, base: nat, segments: set<nat>, kept: seq<Group>, r: seq<Group>,
                            hasReplace: bool, basePresent: bool)
    requires AllSingle(groups) && Sorted(r)
    requires forall g :: g in kept <==> g in groups && g * segments == {}
    requires hasReplace <==> exists g :: g in groups && g * segments != {}
    requires basePresent <==> exists g :: g in kept && base in g
    requires forall g :: g in r <==> g in kept || (hasReplace && !basePresent && g == {base})
    ensures Simplified(Replaced(groups, base, segments), r)
  {
    var all := Replaced(groups, base, segments);
    forall g ensures g in all <==> g in r {
      ReplacedMember(groups, base, segments, g);
      if basePresent {
        var b :| b in kept && base in b;
        SingleOf(b, base);
      }
    }
    forall g | g in r ensures |g| == 1 {
    }
    SinglesMinimal(all, r);
  }

  lemma SingleOf(g: Group, x: nat)
    requires |g| == 1 && x in g
    ensures g == {x}
  {
    SingleSubset({x}, g);
  }

  lemma ReplacedMember(groups: seq<Group>, base: nat, segments: set<nat>, g: Group)
    requires AllSingle(groups)
    ensures g in Replaced(groups, base, segments) <==>
            (g in groups && g * segments == {}) || (g == {base} && exists x :: x in groups && x * segments != {})
  {
    var all := Replaced(groups, base, segments);
    forall i | 0 <= i < |groups| ensures all[i] == if groups[i] * segments != {} then {base} else groups[i] {
      assert groups[i] in groups;
      if groups[i] * segments != {} {
        var x :| x in groups[i] * segments;
        SingleOf(groups[i], x);
        assert groups[i] - segments == {};
      }
    }
    if g in groups && g * segments == {} {
      var i :| 0 <= i < |groups| && groups[i] == g;
      assert all[i] == g;
    }
    if x :| x in groups && x * segments != {} {
      var i :| 0 <= i < |groups| && groups[i] == x;
      assert all[i] == {base};
    }
  }

  lemma SinglesMinimal(all: seq<Group>, r: seq<Group>)
    requires Sorted(r) && AllSingle(r) && forall g :: g in all <==> g in r
    ensures Simplified(all, r)
  {
    hide SetLess;
    forall g ensures g in r <==> Minimal(all, g) {
      if g in r {
        forall h | h in all && h <= g ensures h == g {
          SingleSubset(h, g);
        }
      }
    }
    forall i, j | 0 <= i < |r| && 0 <= j < |r| && i != j ensures !(r[i] <= r[j]) {
      assert r[i] in r && r[j] in r;
      SingleSubset(r[i], r[j]);
      SetOrder(r[i], r[j]);
      SetOrder(r[j], r[i]);
    }
  }

  // ---------- dropping groups ----------

  /** Without the groups that meet `segments` the condition says what it said with those segments active. */
  method RemoveIntersectingSubgroups(c: ActivationCondition, segments: set<nat>) returns (r: ActivationCondition)
    requires c.Valid()
    ensures r.Valid() && r == c.(groups := r.groups)
    ensures forall g :: g in r.groups <==> g in c.groups && g * segments == {}
    ensures forall active :: r.HoldsFor(active) <==> c.HoldsFor(active + segments)
  {
    var groups: seq<Group> := [];
    for i := 0 to |c.groups|
      invariant Untouched(c.groups, i, segments, groups)
    {
      UntouchedStep(c.groups, i, segments, groups);
      if c.groups[i] * segments == {} {
        groups := groups + [c.groups[i]];
      }
    }
    assert c.groups[..|c.groups|] == c.groups;
    SubsetOfCanonical(c.groups, groups);
    forall active ensures Holds(groups, active) <==> c.HoldsFor(active + segments) {
      HoldsMembers(groups, active);
      HoldsMembers(c.groups, active + segments);
      assert forall g: Group :: g * (active + segments) == g * active + g * segments;
    }
    r := c.(groups := groups);
  }

  /** The group that is kept when no group is a single segment: the largest minimum, then the smallest size. */
  ghost predicate Preferred(keep: Group, g: Group)
    requires keep != {} && g != {}
  {
    Min(g) < Min(keep) || (Min(g) == Min(keep) && |keep| <= |g|)
  }

  ghost predicate KeptGroup(groups: seq<Group>, keep: Group) {
    keep in groups && keep != {} && forall g :: g in groups ==> g != {} && Preferred(keep, g)
  }

  /** What is known of the groups before i: the single segments, or else the group to keep. */
  ghost predicate Scanned(groups: seq<Group>, i: nat, conjunctive: set<nat>, keep: Group, highest: nat)
    requires i <= |groups|
  {
    && (forall x :: x in conjunctive <==> {x} in groups[..i])
    && (keep != {} ==> keep in groups && highest == Min(keep))
    && (conjunctive == {} ==> forall k :: 0 <= k < i ==> keep != {} && groups[k] != {} && Preferred(keep, groups[k]))
  }

  lemma ScanSingle(groups: seq<Group>, i: nat, conjunctive: set<nat>, keep: Group, highest: nat)
    requires i < |groups| && Scanned(groups, i, conjunctive, keep, highest) && |groups[i]| == 1
    ensures Scanned(groups, i + 1, conjunctive + {Min(groups[i])}, keep, highest)
  {
    TakeMore(groups, i);
    SingleOf(groups[i], Min(groups[i]));
  }

  lemma ScanOther(groups: seq<Group>, i: nat, conjunctive: set<nat>, keep: Group, highest: nat)
    requires i < |groups| && Scanned(groups, i, conjunctive, keep, highest) && |groups[i]| != 1 && groups[i] != {}
    ensures var g := groups[i];
            if conjunctive == {} && (keep == {} || Min(g) > highest || (Min(g) == highest && |g| < |keep|))
            then Scanned(groups, i + 1, conjunctive, g, Min(g))
            else Scanned(groups, i + 1, conjunctive, keep, highest)
  {
    hide Min;
    TakeMore(groups, i);
    NotSingle(groups[i]);
    assert groups[i] in groups;
    assert forall k :: 0 <= k < i ==> groups[k] in groups;
  }

  ghost predicate NoEmptyGroup(groups: seq<Group>) {
    forall g :: g in groups ==> g != {}
  }

  lemma SeveralNotEmpty(groups: seq<Group>)
    requires Antichain(groups) && |groups| > 1
    ensures NoEmptyGroup(groups)
  {
    forall g | g in groups ensures g != {} {
      var i :| 0 <= i < |groups| && groups[i] == g;
      assert !(groups[i] <= groups[if i == 0 then 1 else 0]);
    }
  }

  /** A condition with only conjunctions or only disjunctions that holds whenever `c` does: `c` itself, or all its
      single segments, or else its preferred group. */
  method NonCompositeSuperset(c: ActivationCondition) returns (r: ActivationCondition)
    requires c.Valid()
    ensures r.Valid() && (r.IsPurelyConjunctive() || r.IsPurelyDisjunctive() || r.IsAlwaysTrue())
    ensures forall active :: c.HoldsFor(active) ==> r.HoldsFor(active)
    ensures c.IsPurelyConjunctive() || c.IsPurelyDisjunctive() || c.IsAlwaysTrue() ==> r == c
    ensures !(c.IsPurelyConjunctive() || c.IsPurelyDisjunctive() || c.IsAlwaysTrue()) ==>
              if exists g :: g in c.groups && |g| == 1
              then forall g :: g in r.groups <==> g in c.groups && |g| == 1
              else |r.groups| == 1 && KeptGroup(c.groups, r.groups[0])
    ensures r.activated == c.activated && r.isFallback == c.isFallback && r.encoding == c.encoding
    ensures r.isExclusive <==> c.isExclusive || (r.IsUnitary() && r != c)
  {
    if c.IsPurelyConjunctive() || c.IsPurelyDisjunctive() || c.IsAlwaysTrue() {
      return c;
    }
    SeveralNotEmpty(c.groups);
    var conjunctive, keep := ScanGroups(c);
    if conjunctive != {} {
      r := Conjunction(c, conjunctive);
    } else {
      NoSingles(c.groups);
      SingleGroup(keep);
      forall active | c.HoldsFor(active) ensures Holds([keep], active) {
        HoldsMembers(c.groups, active);
      }
      r := c.(groups := [keep]);
    }
  }

  method ScanGroups(c: ActivationCondition) returns (conjunctive: set<nat>, keep: Group)
    requires c.groups != [] && NoEmptyGroup(c.groups)
    ensures forall x :: x in conjunctive <==> {x} in c.groups
    ensures conjunctive == {} ==> KeptGroup(c.groups, keep)
  {
    var highest := 0;
    conjunctive, keep := {}, {};
    for i := 0 to |c.groups|
      invariant Scanned(c.groups, i, conjunctive, keep, highest)
    {
      var g := c.groups[i];
      assert g in c.groups;
      if |g| == 1 {
        ScanSingle(c.groups, i, conjunctive, keep, highest);
        conjunctive := conjunctive + {Min(g)};
      } else {
        ScanOther(c.groups, i, conjunctive, keep, highest);
        if conjunctive == {} {
          var min := Min(g);
          if keep == {} || min > highest || (min == highest && |g| < |keep|) {
            highest, keep := min, g;
          }
        }
      }
    }
    assert c.groups[..|c.groups|] == c.groups;
    assert c.groups[0] in c.groups;
  }

  lemma NotSingle(g: Group)
    requires |g| != 1
    ensures forall x :: {x} != g
  {
  }

  lemma NoSingles(groups: seq<Group>)
    requires forall x :: {x} !in groups
    ensures forall g :: g in groups ==> |g| != 1
  {
    forall g | g in groups ensures |g| != 1 {
      if |g| == 1 {
        var x :| x in g;
        SingleOf(g, x);
      }
    }
  }

  /** All the groups that are single segments. */
  method Conjunction(c: ActivationCondition, segments: set<nat>) returns (r: ActivationCondition)
    requires c.Valid() && segments != {} && forall x :: x in segments <==> {x} in c.groups
    ensures r.Valid() && (r.IsPurelyConjunctive() || r.IsPurelyDisjunctive())
    ensures forall g :: g in r.groups <==> g in c.groups && |g| == 1
    ensures forall active :: c.HoldsFor(active) ==> r.HoldsFor(active)
    ensures r.activated == c.activated && r.isFallback == c.isFallback && r.encoding == c.encoding
    ensures r.isExclusive <==> c.isExclusive || r.IsUnitary()
    ensures exists g :: g in c.groups && |g| == 1
  {
    hide Canonical;
    var groups := SingletonGroups(segments);
    forall g ensures g in groups <==> g in c.groups && |g| == 1 {
      if g in c.groups && |g| == 1 {
        var x :| x in g;
        SingleOf(g, x);
      }
    }
    forall active | c.HoldsFor(active) ensures Holds(groups, active) {
      HoldsMembers(c.groups, active);
      HoldsMembers(groups, active);
    }
    var x :| x in segments;
    assert |{x}| == 1;
    r := c.(groups := groups, isExclusive := c.isExclusive || |groups| == 1);
  }
}
