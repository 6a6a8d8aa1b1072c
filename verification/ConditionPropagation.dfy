/** Propagation of conditions through the dependency graph, one strongly connected component after the other. */
module ConditionPropagation {
  import opened Wrappers
  import opened Reachability
  import opened ActivationConditions
  import opened NodeConditions

  // ---------- the condition of one edge ----------

  /** Going through the groups, an empty one comes up before one without any reached node. */
  ghost predicate Malformed(cnf: Cnf, present: set<Node>) {
    cnf == [] || exists k :: 0 <= k < |cnf| && cnf[k] == [] && forall j :: 0 <= j < k ==> GroupMet(cnf[j], present)
  }

  /** The condition under which group is met, unless it never is. */
  ghost predicate IsGroupCondition(group: seq<Node>, conditions: Conditions, o: Option<ActivationCondition>) {
    && (o.Some? <==> GroupMet(group, conditions.Keys))
    && (o.Some? ==> o.value.Valid())
    && (o.Some? ==> forall active :: o.value.HoldsFor(active) <==> GroupMet(group, Nodes(conditions, Under(active))))
  }

  /** The condition under which cnf is met, unless it never is. */
  ghost predicate IsCnfCondition(cnf: Cnf, conditions: Conditions, o: Option<ActivationCondition>) {
    && (o.Some? <==> CnfMet(cnf, conditions.Keys))
    && (o.Some? ==> o.value.Valid())
    && (o.Some? ==> forall active :: o.value.HoldsFor(active) <==> CnfMet(cnf, Nodes(conditions, Under(active))))
  }

  /** The condition under which an edge leads to the node, unless none does. */
  ghost predicate IsEdgesCondition(edges: seq<Cnf>, conditions: Conditions, o: Option<ActivationCondition>) {
    && (o.Some? <==> SomeMet(edges, conditions.Keys))
    && (o.Some? ==> o.value.Valid())
    && (o.Some? ==> forall active :: o.value.HoldsFor(active) <==> SomeMet(edges, Nodes(conditions, Under(active))))
  }

  /** A node that a single edge leads to from a single node gets the very condition of that node, its flags included. */
  ghost predicate PassesOn(edges: seq<Cnf>, conditions: Conditions, o: Option<ActivationCondition>) {
    forall m :: edges == [[[m]]] && m in conditions ==> o == Some(conditions[m])
  }

  lemma GroupMetOneMore(group: seq<Node>, j: nat, x: set<Node>)
    requires j < |group|
    ensures GroupMet(group[..j + 1], x) <==> GroupMet(group[..j], x) || group[j] in x
  {
    assert group[..j + 1] == group[..j] + [group[j]];
    if group[j] in x {
      assert group[j] in group[..j + 1];
    }
    if GroupMet(group[..j], x) {
      var m :| m in group[..j] && m in x;
      assert m in group[..j + 1];
    }
  }

  lemma CnfMetOneMore(cnf: Cnf, k: nat, x: set<Node>)
    requires k < |cnf|
    ensures CnfMet(cnf[..k + 1], x) <==> CnfMet(cnf[..k], x) && GroupMet(cnf[k], x)
  {
    hide GroupMet;
    var c := cnf[..k + 1];
    assert forall i :: 0 <= i < k ==> c[i] == cnf[..k][i];
    assert c[k] == cnf[k];
  }

  lemma SomeMetOneMore(edges: seq<Cnf>, k: nat, x: set<Node>)
    requires k < |edges|
    ensures SomeMet(edges[..k + 1], x) <==> SomeMet(edges[..k], x) || CnfMet(edges[k], x)
  {
    hide CnfMet;
    var c := edges[..k + 1];
    assert forall i :: 0 <= i < k ==> c[i] == edges[..k][i];
    assert c[k] == edges[k];
  }

  /** Or over the nodes of a group that have a condition. */
  method GroupCondition(group: seq<Node>, conditions: Conditions) returns (o: Option<ActivationCondition>)
    requires AllValid(conditions)
    ensures IsGroupCondition(group, conditions, o) && PassesOn([[group]], conditions, o)
  {
    hide GroupMet;
    o := None;
    assert forall x :: !GroupMet(group[..0], x) by { NothingMet(group[..0]); }
    for j := 0 to |group|
      invariant IsGroupCondition(group[..j], conditions, o)
      invariant j == 1 && group[0] in conditions ==> o == Some(conditions[group[0]])
    {
      var node := group[j];
      forall x ensures GroupMet(group[..j + 1], x) <==> GroupMet(group[..j], x) || group[j] in x {
        GroupMetOneMore(group, j, x);
      }
      if node !in conditions {
        continue;
      }
      if o.None? {
        o := Some(conditions[node]);
        NeverMet(group[..j], conditions);
      } else {
        var both := Or(o.value, conditions[node]);
        o := Some(both);
      }
    }
    assert group[..|group|] == group;
  }

  lemma NothingMet(group: seq<Node>)
    requires group == []
    ensures forall x :: !GroupMet(group, x)
  {
  }

  lemma NeverMet(group: seq<Node>, conditions: Conditions)
    requires !GroupMet(group, conditions.Keys)
    ensures forall active :: !GroupMet(group, Nodes(conditions, Under(active)))
  {
    forall active ensures !GroupMet(group, Nodes(conditions, Under(active))) {
      assert Nodes(conditions, Under(active)) <= conditions.Keys;
    }
  }

  /** And over the groups; an empty list of groups, or an empty group, is an error. */
  method EdgeConditionsToActivationCondition(cnf: Cnf, conditions: Conditions) returns (r: Result<Option<ActivationCondition>>)
    requires AllValid(conditions)
    ensures r.Error? <==> Malformed(cnf, conditions.Keys)
    ensures r.Ok? ==> IsCnfCondition(cnf, conditions, r.value) && PassesOn([cnf], conditions, r.value)
  {
    hide GroupMet;
    if cnf == [] {
      return Error;
    }
    var out: Option<ActivationCondition> := None;
    for k := 0 to |cnf|
      invariant out.None? <==> k == 0
      invariant out.Some? ==> IsCnfCondition(cnf[..k], conditions, out)
      invariant k == 1 ==> PassesOn([[cnf[0]]], conditions, out)
      invariant forall j :: 0 <= j < k ==> cnf[j] != [] && GroupMet(cnf[j], conditions.Keys)
    {
      if cnf[k] == [] {
        return Error;
      }
      var group := GroupCondition(cnf[k], conditions);
      if group.None? {
        return Ok(None);
      }
      forall x ensures CnfMet(cnf[..k + 1], x) <==> CnfMet(cnf[..k], x) && GroupMet(cnf[k], x) {
        CnfMetOneMore(cnf, k, x);
      }
      if out.None? {
        out := group;
      } else {
        var both := And(out.value, group.value);
        out := Some(both);
      }
    }
    assert cnf[..|cnf|] == cnf;
    r := Ok(out);
  }

  /** Or over the edges. */
  method EdgesCondition(edges: seq<Cnf>, conditions: Conditions) returns (r: Result<Option<ActivationCondition>>)
    requires AllValid(conditions)
    ensures r.Error? <==> exists k :: 0 <= k < |edges| && Malformed(edges[k], conditions.Keys)
    ensures r.Ok? ==> IsEdgesCondition(edges, conditions, r.value) && PassesOn(edges, conditions, r.value)
  {
    hide CnfMet, Malformed;
    var out: Option<ActivationCondition> := None;
    for k := 0 to |edges|
      invariant IsEdgesCondition(edges[..k], conditions, out)
      invariant k == 1 ==> PassesOn([edges[0]], conditions, out)
      invariant forall j :: 0 <= j < k ==> !Malformed(edges[j], conditions.Keys)
    {
      var condition := EdgeConditionsToActivationCondition(edges[k], conditions);
      if condition.Error? {
        return Error;
      }
      forall x ensures SomeMet(edges[..k + 1], x) <==> SomeMet(edges[..k], x) || CnfMet(edges[k], x) {
        SomeMetOneMore(edges, k, x);
      }
      NeverReached(edges[..k], conditions);
      NeverCnfMet(edges[k], conditions);
      if condition.value.None? {
        continue;
      }
      if out.Some? {
        var both := Or(out.value, condition.value.value);
        out := Some(both);
      } else {
        out := condition.value;
      }
    }
    assert edges[..|edges|] == edges;
    r := Ok(out);
  }

  lemma NeverCnfMet(cnf: Cnf, conditions: Conditions)
    ensures !CnfMet(cnf, conditions.Keys) ==> forall active :: !CnfMet(cnf, Nodes(conditions, Under(active)))
  {
    if !CnfMet(cnf, conditions.Keys) {
      forall active ensures !CnfMet(cnf, Nodes(conditions, Under(active))) {
        if CnfMet(cnf, Nodes(conditions, Under(active))) {
          CnfMetMore(cnf, Nodes(conditions, Under(active)), conditions.Keys);
        }
      }
    }
  }

  lemma NeverReached(edges: seq<Cnf>, conditions: Conditions)
    ensures !SomeMet(edges, conditions.Keys) ==> forall active :: !SomeMet(edges, Nodes(conditions, Under(active)))
  {
    hide CnfMet;
    forall k | 0 <= k < |edges| ensures !CnfMet(edges[k], conditions.Keys) ==> forall active :: !CnfMet(edges[k], Nodes(conditions, Under(active))) {
      NeverCnfMet(edges[k], conditions);
    }
  }

  // ---------- one node ----------

  lemma ViewsOfEdges(incoming: Edges, n: Node, c: Conditions, o: Option<ActivationCondition>)
    requires n in incoming && IsEdgesCondition(incoming[n], c, o)
    ensures Fires(incoming, n, Nodes(c, Present)) <==> o.Some?
    ensures forall active :: Fires(incoming, n, Nodes(c, Under(active))) <==> o.Some? && o.value.HoldsFor(active)
  {
    NeverReached(incoming[n], c);
  }

  lemma UpdatedBy(incoming: Edges, n: Node, c: Conditions, d: Conditions)
    requires SameOutside({n}, c, d)
    requires n in d <==> n in c || Fires(incoming, n, Nodes(c, Present))
    requires forall active :: n in Nodes(d, Under(active)) <==> n in Nodes(c, Under(active)) || Fires(incoming, n, Nodes(c, Under(active)))
    ensures Updated(incoming, n, c, d)
  {
    hide Fires;
    forall v ensures n in Nodes(d, v) <==> n in Nodes(c, v) || Fires(incoming, n, Nodes(c, v)) {
      match v
      case Present =>
      case Under(active) =>
    }
  }

  ghost predicate HasMalformed(incoming: Edges, n: Node, present: set<Node>) {
    n in incoming && exists k :: 0 <= k < |incoming[n]| && Malformed(incoming[n][k], present)
  }

  /** Brings the condition of a node up to date with its edges. */
  method UpdateNode(incoming: Edges, n: Node, c: Conditions, modified: set<Node>)
    returns (ok: bool, d: Conditions, modified': set<Node>, changed: bool)
    requires AllValid(c)
    ensures ok <==> !HasMalformed(incoming, n, c.Keys) || (n in c && c[n].IsAlwaysTrue())
    ensures ok ==> AllValid(d) && Updated(incoming, n, c, d)
    ensures ok ==> if changed then Moved(n, c, d) else d == c
    ensures ok && n in incoming && n !in c && n in d ==> PassesOn(incoming[n], c, Some(d[n]))
    ensures ok && n in c && changed ==> d[n] == c[n].(groups := d[n].groups, isExclusive := false)
    ensures modified' == modified + (d.Keys - c.Keys)
  {
    hide Fires, Malformed, Nodes;
    ok, d, modified', changed := true, c, modified, false;
    if n !in incoming {
      NotIncoming(incoming, n, c);
      return;
    }
    if n in c && c[n].IsAlwaysTrue() {
      AlwaysTrueUpdated(incoming, n, c);
      return;
    }
    var r := EdgesCondition(incoming[n], c);
    if r.Error? {
      ok := false;
      return;
    }
    var complete := r.value;
    ViewsOfEdges(incoming, n, c, complete);
    if complete.None? {
      UpdatedBy(incoming, n, c, c);
      return;
    }
    if n !in c {
      d := c[n := complete.value];
      modified' := modified + {n};
      changed := true;
      InsertedUpdated(incoming, n, c, complete.value);
    } else {
      var combined := Or(c[n], complete.value);
      CombinedUpdated(incoming, n, c, complete.value, combined);
      if combined != c[n] {
        d := c[n := combined];
        changed := true;
      } else {
        assert c[n := combined] == c;
      }
    }
  }

  lemma NotIncoming(incoming: Edges, n: Node, c: Conditions)
    requires n !in incoming
    ensures Updated(incoming, n, c, c)
  {
  }

  lemma AlwaysTrueUpdated(incoming: Edges, n: Node, c: Conditions)
    requires n in c && c[n].IsAlwaysTrue()
    ensures Updated(incoming, n, c, c)
  {
    hide Fires;
    forall active ensures n in Nodes(c, Under(active)) {
      assert c[n].HoldsFor(active);
    }
    UpdatedBy(incoming, n, c, c);
  }

  lemma InsertedUpdated(incoming: Edges, n: Node, c: Conditions, condition: ActivationCondition)
    requires n !in c && Fires(incoming, n, Nodes(c, Present))
    requires forall active :: Fires(incoming, n, Nodes(c, Under(active))) <==> condition.HoldsFor(active)
    ensures Updated(incoming, n, c, c[n := condition])
  {
    hide Fires;
    UpdatedBy(incoming, n, c, c[n := condition]);
  }

  lemma CombinedUpdated(incoming: Edges, n: Node, c: Conditions, condition: ActivationCondition, combined: ActivationCondition)
    requires n in c
    requires forall active :: Fires(incoming, n, Nodes(c, Under(active))) <==> condition.HoldsFor(active)
    requires forall active :: combined.HoldsFor(active) <==> c[n].HoldsFor(active) || condition.HoldsFor(active)
    ensures Updated(incoming, n, c, c[n := combined])
  {
    hide Fires;
    UpdatedBy(incoming, n, c, c[n := combined]);
  }

  // ---------- one component, and all of them ----------

  /** What holds of the conditions at every moment of the propagation. */
  ghost predicate Running(incoming: Edges, nodes: set<Node>, u: set<nat>, start: Conditions, c: Conditions) {
    AllValid(c) && Sound(incoming, nodes, start, c) && Grown(start, c) && AllDependOn(c, u)
  }

  ghost predicate WellFormed(incoming: Edges) {
    forall n, e :: n in incoming && 0 <= e < |incoming[n]| ==> incoming[n][e] != [] && forall k :: 0 <= k < |incoming[n][e]| ==> incoming[n][e][k] != []
  }

  lemma WellFormedIsFine(incoming: Edges, n: Node, present: set<Node>)
    requires WellFormed(incoming)
    ensures !HasMalformed(incoming, n, present)
  {
  }

  lemma GrownTrans(a: Conditions, b: Conditions, c: Conditions)
    requires Grown(a, b) && Grown(b, c)
    ensures Grown(a, c)
  {
    hide Nodes;
    forall v ensures Nodes(a, v) <= Nodes(c, v) {
      assert Nodes(a, v) <= Nodes(b, v) <= Nodes(c, v);
    }
  }

  lemma UpdateRunning(incoming: Edges, nodes: set<Node>, u: set<nat>, start: Conditions, n: Node, c: Conditions, d: Conditions)
    requires Running(incoming, nodes, u, start, c) && Updated(incoming, n, c, d) && AllValid(d) && n in nodes
    ensures Running(incoming, nodes, u, start, d) && Grown(c, d) && SameOutside({n}, c, d) && StableAt(incoming, n, d)
  {
    hide Fires, Nodes, StableAt;
    UpdatedIsSound(incoming, nodes, start, n, c, d);
    UpdatedDependsOn(incoming, n, c, d, u);
    UpdatedIsStable(incoming, n, c, d);
    GrownTrans(start, c, d);
  }

  lemma SameOutsideTrans(nodes: set<Node>, a: Conditions, b: Conditions, c: Conditions, n: Node)
    requires SameOutside(nodes, a, b) && SameOutside({n}, b, c) && n in nodes && a.Keys <= b.Keys <= c.Keys
    ensures SameOutside(nodes, a, c) && a.Keys <= c.Keys
  {
  }

  lemma GrownKeys(c: Conditions, d: Conditions)
    requires Grown(c, d)
    ensures c.Keys <= d.Keys
  {
    assert Nodes(c, Present) <= Nodes(d, Present);
  }

  /** Brings each node of a component up to date once. */
  method Pass(incoming: Edges, scc: seq<Node>, c: Conditions, modified: set<Node>, ghost nodes: set<Node>, ghost u: set<nat>, ghost start: Conditions)
    returns (ok: bool, d: Conditions, modified': set<Node>, changed: bool)
    requires Running(incoming, nodes, u, start, c) && forall n :: n in scc ==> n in nodes
    ensures WellFormed(incoming) ==> ok
    ensures ok ==> Running(incoming, nodes, u, start, d) && Grown(c, d) && SameOutside((set n | n in scc), c, d)
    ensures ok ==> modified' == modified + (d.Keys - c.Keys)
    ensures ok ==> if changed then TotalRoom(d, scc, u) < TotalRoom(c, scc, u) else d == c
    ensures ok && !changed ==> forall n :: n in scc ==> StableAt(incoming, n, d)
    ensures ok && |scc| == 1 ==> StableAt(incoming, scc[0], d)
  {
    hide Fires, Nodes, StableAt, Sound, Grown, AllDependOn, WellFormed, HasMalformed, TotalRoom, Moved, Room, Updated, SameOutside;
    ok, d, modified', changed := true, c, modified, false;
    ghost var members := set n | n in scc;
    PassStart(members, c);
    for i := 0 to |scc|
      invariant ok && Running(incoming, nodes, u, start, d) && Grown(c, d) && SameOutside(members, c, d)
      invariant c.Keys <= d.Keys && modified' == modified + (d.Keys - c.Keys)
      invariant if changed then TotalRoom(d, scc, u) < TotalRoom(c, scc, u) else d == c
      invariant !changed ==> forall k :: 0 <= k < i ==> StableAt(incoming, scc[k], d)
      invariant i > 0 ==> StableAt(incoming, scc[i - 1], d)
    {
      var n := scc[i];
      ghost var before := d;
      var moved;
      if WellFormed(incoming) {
        WellFormedIsFine(incoming, n, d.Keys);
      }
      ok, d, modified', moved := UpdateNode(incoming, n, d, modified');
      if !ok {
        return;
      }
      UpdateRunning(incoming, nodes, u, start, n, before, d);
      GrownKeys(before, d);
      GrownTrans(c, before, d);
      SameOutsideTrans(members, c, before, d, n);
      if moved {
        MovedHasLessRoom(incoming, n, before, d, u);
        LessRoom(before, d, scc, n, u);
        changed := true;
      }
    }
  }

  lemma PassStart(nodes: set<Node>, c: Conditions)
    ensures Grown(c, c) && SameOutside(nodes, c, c)
  {
  }

  ghost predicate StableBefore(incoming: Edges, sccs: seq<seq<Node>>, i: int, c: Conditions)
    requires i <= |sccs|
  {
    forall k, n :: 0 <= k < i && n in sccs[k] ==> StableAt(incoming, n, c)
  }

  lemma EarlierStayStable(incoming: Edges, sccs: seq<seq<Node>>, i: nat, c: Conditions, d: Conditions)
    requires i < |sccs| && Ordered(incoming, sccs) && StableBefore(incoming, sccs, i, c)
    requires SameOutside((set n | n in sccs[i]), c, d) && Grown(c, d)
    ensures StableBefore(incoming, sccs, i, d)
  {
    hide StableAt, SameOutside, Grown, Requires;
    forall k, n | 0 <= k < i && n in sccs[k] ensures StableAt(incoming, n, d) {
      StableStays(incoming, n, (set m | m in sccs[i]), c, d);
    }
  }

  /** Repeats passes over a component until nothing changes. */
  method Stabilize(incoming: Edges, scc: seq<Node>, c: Conditions, modified: set<Node>, ghost nodes: set<Node>, ghost u: set<nat>, ghost start: Conditions)
    returns (ok: bool, d: Conditions, modified': set<Node>)
    requires Running(incoming, nodes, u, start, c) && forall n :: n in scc ==> n in nodes
    ensures WellFormed(incoming) ==> ok
    ensures ok ==> Running(incoming, nodes, u, start, d) && Grown(c, d) && SameOutside((set n | n in scc), c, d)
    ensures ok ==> modified' == modified + (d.Keys - c.Keys)
    ensures ok ==> forall n :: n in scc ==> StableAt(incoming, n, d)
  {
    hide Fires, Nodes, StableAt, Sound, Grown, AllDependOn, WellFormed, TotalRoom, SameOutside;
    ok, d, modified' := true, c, modified;
    ghost var members := set n | n in scc;
    PassStart(members, c);
    var changed := true;
    while changed
      invariant ok && Running(incoming, nodes, u, start, d) && Grown(c, d) && SameOutside(members, c, d)
      invariant c.Keys <= d.Keys && modified' == modified + (d.Keys - c.Keys)
      invariant !changed ==> forall n :: n in scc ==> StableAt(incoming, n, d)
      decreases TotalRoom(d, scc, u), changed
    {
      ghost var before := d;
      ok, d, modified', changed := Pass(incoming, scc, d, modified', nodes, u, start);
      if !ok {
        return;
      }
      GrownKeys(before, d);
      GrownTrans(c, before, d);
      SameOutsideMore(members, c, before, d);
      if |scc| == 1 {
        break;
      }
    }
  }

  lemma SameOutsideMore(nodes: set<Node>, a: Conditions, b: Conditions, c: Conditions)
    requires SameOutside(nodes, a, b) && SameOutside(nodes, b, c)
    ensures SameOutside(nodes, a, c)
  {
  }

  /** With the components in order, the conditions become exactly what forward chaining reaches. */
  method PropagateConditions(incoming: Edges, sccs: seq<seq<Node>>, start: Conditions, modified: set<Node>)
    returns (ok: bool, c: Conditions, modified': set<Node>)
    requires AllValid(start) && Ordered(incoming, sccs)
    ensures WellFormed(incoming) ==> ok
    ensures ok ==> Propagated(incoming, Members(sccs), start, c)
    ensures ok ==> modified' == modified + (c.Keys - start.Keys)
    ensures ok ==> SameOutside(Members(sccs), start, c)
  {
    hide StableAt, Sound, Grown, AllDependOn, WellFormed, SameOutside, Ordered;
    ghost var nodes, u := Members(sccs), AllSegments(start);
    StartRunning(incoming, nodes, start);
    PassStart(nodes, start);
    ok, c, modified' := true, start, modified;
    for i := 0 to |sccs|
      invariant ok && Running(incoming, nodes, u, start, c) && StableBefore(incoming, sccs, i, c)
      invariant start.Keys <= c.Keys && modified' == modified + (c.Keys - start.Keys) && SameOutside(nodes, start, c)
    {
      ghost var before := c;
      ok, c, modified' := Stabilize(incoming, sccs[i], c, modified', nodes, u, start);
      if !ok {
        return;
      }
      GrownKeys(before, c);
      EarlierStayStable(incoming, sccs, i, before, c);
      SameOutsideWider((set n | n in sccs[i]), nodes, before, c);
      SameOutsideMore(nodes, start, before, c);
    }
    StableIsPropagated(incoming, nodes, start, c);
  }

  lemma SameOutsideWider(some: set<Node>, nodes: set<Node>, c: Conditions, d: Conditions)
    requires SameOutside(some, c, d) && some <= nodes
    ensures SameOutside(nodes, c, d)
  {
  }

  lemma StartRunning(incoming: Edges, nodes: set<Node>, start: Conditions)
    requires AllValid(start)
    ensures Running(incoming, nodes, AllSegments(start), start, start)
  {
    StartDependsOn(start);
  }
}
