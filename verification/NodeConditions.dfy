/** Conditions of the nodes of the dependency graph, and the least set of nodes that the edges lead to. */
module NodeConditions {
  import opened IntSets
  import opened Reachability
  import opened SegmentGroups
  import opened ActivationConditions

  /** The requirements of an edge: one node of every group. */
  type Cnf = seq<seq<Node>>
  type Edges = map<Node, seq<Cnf>>

  /** The condition for reaching a node; a node without one is not reached. */
  type Conditions = map<Node, ActivationCondition>

  /** Two ways to look at conditions: which nodes have one, and which are met when some segments are active. */
  datatype View = Present | Under(active: set<nat>)

  ghost function Nodes(c: Conditions, v: View): set<Node> {
    match v
    case Present => c.Keys
    case Under(active) => set n | n in c && c[n].HoldsFor(active)
  }

  ghost predicate AllValid(c: Conditions) {
    forall n :: n in c ==> c[n].Valid()
  }

  // ---------- concrete forward chaining ----------

  ghost predicate GroupMet(group: seq<Node>, x: set<Node>) {
    exists m :: m in group && m in x
  }

  ghost predicate CnfMet(cnf: Cnf, x: set<Node>) {
    forall k :: 0 <= k < |cnf| ==> GroupMet(cnf[k], x)
  }

  ghost predicate SomeMet(edges: seq<Cnf>, x: set<Node>) {
    exists k :: 0 <= k < |edges| && CnfMet(edges[k], x)
  }

  /** An edge to the node has its requirements in x. */
  ghost predicate Fires(incoming: Edges, n: Node, x: set<Node>) {
    n in incoming && SomeMet(incoming[n], x)
  }

  ghost predicate ClosedFor(incoming: Edges, nodes: set<Node>, x: set<Node>) {
    forall n :: n in nodes && Fires(incoming, n, x) ==> n in x
  }

  /** x is the least set that holds `initial` and every one of `nodes` that an edge leads to from it. */
  ghost predicate IsLeast(incoming: Edges, nodes: set<Node>, initial: set<Node>, x: set<Node>) {
    && initial <= x && ClosedFor(incoming, nodes, x)
    && forall y :: initial <= y && ClosedFor(incoming, nodes, y) ==> x <= y
  }

  lemma CnfMetMore(cnf: Cnf, x: set<Node>, y: set<Node>)
    requires CnfMet(cnf, x) && x <= y
    ensures CnfMet(cnf, y)
  {
    forall k | 0 <= k < |cnf| ensures GroupMet(cnf[k], y) {
      assert GroupMet(cnf[k], x);
    }
  }

  lemma FiresMore(incoming: Edges, n: Node, x: set<Node>, y: set<Node>)
    requires Fires(incoming, n, x) && x <= y
    ensures Fires(incoming, n, y)
  {
    var k :| 0 <= k < |incoming[n]| && CnfMet(incoming[n][k], x);
    CnfMetMore(incoming[n][k], x, y);
  }

  ghost predicate Requires(incoming: Edges, n: Node, m: Node) {
    n in incoming && exists e, k :: 0 <= e < |incoming[n]| && 0 <= k < |incoming[n][e]| && m in incoming[n][e][k]
  }

  /** Only the required nodes matter. */
  lemma FiresSame(incoming: Edges, n: Node, x: set<Node>, y: set<Node>)
    requires forall m :: Requires(incoming, n, m) ==> (m in x <==> m in y)
    ensures Fires(incoming, n, x) <==> Fires(incoming, n, y)
  {
    if n in incoming {
      forall e | 0 <= e < |incoming[n]| ensures CnfMet(incoming[n][e], x) <==> CnfMet(incoming[n][e], y) {
        forall k | 0 <= k < |incoming[n][e]| ensures GroupMet(incoming[n][e][k], x) <==> GroupMet(incoming[n][e][k], y) {
          assert forall m :: m in incoming[n][e][k] ==> Requires(incoming, n, m);
        }
      }
    }
  }

  // ---------- one node catches up with its edges ----------

  /** The node is now also reached where one of its edges leads to it; nothing else has changed. */
  ghost predicate Updated(incoming: Edges, n: Node, c: Conditions, d: Conditions) {
    && (forall m :: m != n ==> (m in d <==> m in c))
    && (forall m :: m != n && m in c && m in d ==> d[m] == c[m])
    && forall v :: n in Nodes(d, v) <==> n in Nodes(c, v) || Fires(incoming, n, Nodes(c, v))
  }

  ghost predicate StableAt(incoming: Edges, n: Node, c: Conditions) {
    forall v :: Fires(incoming, n, Nodes(c, v)) ==> n in Nodes(c, v)
  }

  lemma UpdatedNodes(incoming: Edges, n: Node, c: Conditions, d: Conditions, v: View)
    requires Updated(incoming, n, c, d)
    ensures Nodes(c, v) <= Nodes(d, v)
    ensures forall m :: m != n ==> (m in Nodes(d, v) <==> m in Nodes(c, v))
  {
    assert n in Nodes(c, v) ==> n in Nodes(d, v);
  }

  /** Once is enough, even when the node is required by its own edges. */
  lemma UpdatedIsStable(incoming: Edges, n: Node, c: Conditions, d: Conditions)
    requires Updated(incoming, n, c, d)
    ensures StableAt(incoming, n, d)
  {
    hide Fires;
    forall v | Fires(incoming, n, Nodes(d, v)) ensures n in Nodes(d, v) {
      UpdatedNodes(incoming, n, c, d, v);
      assert n !in Nodes(d, v) ==> Nodes(c, v) == Nodes(d, v);
    }
  }

  ghost predicate SameOutside(nodes: set<Node>, c: Conditions, d: Conditions) {
    forall m :: m !in nodes ==> (m in d <==> m in c) && (m in c && m in d ==> d[m] == c[m])
  }

  ghost predicate Grown(c: Conditions, d: Conditions) {
    forall v :: Nodes(c, v) <= Nodes(d, v)
  }

  /** A node whose requirements are left alone stays stable. */
  lemma StableStays(incoming: Edges, n: Node, nodes: set<Node>, c: Conditions, d: Conditions)
    requires StableAt(incoming, n, c) && SameOutside(nodes, c, d) && Grown(c, d)
    requires forall m :: Requires(incoming, n, m) ==> m !in nodes
    ensures StableAt(incoming, n, d)
  {
    hide Fires, Requires;
    forall v | Fires(incoming, n, Nodes(d, v)) ensures n in Nodes(d, v) {
      assert forall m :: m !in nodes ==> (m in Nodes(d, v) <==> m in Nodes(c, v));
      FiresSame(incoming, n, Nodes(c, v), Nodes(d, v));
      assert Nodes(c, v) <= Nodes(d, v);
    }
  }

  /** Nothing is reached that the rules do not force. */
  ghost predicate Sound(incoming: Edges, nodes: set<Node>, start: Conditions, c: Conditions) {
    forall v, y :: Nodes(start, v) <= y && ClosedFor(incoming, nodes, y) ==> Nodes(c, v) <= y
  }

  lemma UpdatedIsSound(incoming: Edges, nodes: set<Node>, start: Conditions, n: Node, c: Conditions, d: Conditions)
    requires Sound(incoming, nodes, start, c) && Updated(incoming, n, c, d) && n in nodes
    ensures Sound(incoming, nodes, start, d) && Grown(c, d)
  {
    hide Fires, Nodes;
    forall v ensures Nodes(c, v) <= Nodes(d, v) {
      UpdatedNodes(incoming, n, c, d, v);
    }
    forall v, y | Nodes(start, v) <= y && ClosedFor(incoming, nodes, y) ensures Nodes(d, v) <= y {
      UpdatedNodes(incoming, n, c, d, v);
      assert Nodes(c, v) <= y;
      if Fires(incoming, n, Nodes(c, v)) {
        FiresMore(incoming, n, Nodes(c, v), y);
      }
    }
  }

  /** The conditions say for every set of active segments what forward chaining from the start reaches. */
  ghost predicate Propagated(incoming: Edges, nodes: set<Node>, start: Conditions, c: Conditions) {
    AllValid(c) && forall v :: IsLeast(incoming, nodes, Nodes(start, v), Nodes(c, v))
  }

  lemma StableIsPropagated(incoming: Edges, nodes: set<Node>, start: Conditions, c: Conditions)
    requires AllValid(c) && Sound(incoming, nodes, start, c) && Grown(start, c)
    requires forall n :: n in nodes ==> StableAt(incoming, n, c)
    ensures Propagated(incoming, nodes, start, c)
  {
    hide Fires, Nodes;
    forall v ensures IsLeast(incoming, nodes, Nodes(start, v), Nodes(c, v)) {
      assert Nodes(start, v) <= Nodes(c, v);
      forall n | n in nodes && Fires(incoming, n, Nodes(c, v)) ensures n in Nodes(c, v) {
        assert StableAt(incoming, n, c);
      }
    }
  }

  // ---------- the order of components ----------

  ghost function Members(sccs: seq<seq<Node>>): set<Node> {
    set i, n | 0 <= i < |sccs| && n in sccs[i] :: n
  }

  /** No node requires one of a later component. */
  ghost predicate Ordered(incoming: Edges, sccs: seq<seq<Node>>) {
    forall i, j, n, m :: 0 <= i < |sccs| && 0 <= j < |sccs| && n in sccs[i] && m in sccs[j] && Requires(incoming, n, m) ==> j <= i
  }

  // ---------- conditions over finitely many segments ----------

  ghost predicate DependsOn(c: ActivationCondition, u: set<nat>) {
    forall active :: c.HoldsFor(active) <==> c.HoldsFor(active * u)
  }

  ghost predicate AllDependOn(c: Conditions, u: set<nat>) {
    forall n :: n in c ==> DependsOn(c[n], u)
  }

  ghost function AllSegments(c: Conditions): set<nat> {
    set n, s | n in c && s in Segments(c[n].groups) :: s
  }

  lemma StartDependsOn(c: Conditions)
    ensures AllDependOn(c, AllSegments(c))
  {
    var u := AllSegments(c);
    forall n, active | n in c ensures c[n].HoldsFor(active) <==> c[n].HoldsFor(active * u) {
      forall i | 0 <= i < |c[n].groups| ensures c[n].groups[i] * active == c[n].groups[i] * (active * u) {
        assert forall s :: s in c[n].groups[i] ==> s in Segments(c[n].groups);
      }
    }
  }

  lemma DependentNodes(c: Conditions, u: set<nat>, active: set<nat>)
    requires AllDependOn(c, u)
    ensures Nodes(c, Under(active)) == Nodes(c, Under(active * u))
  {
    forall n | n in c ensures c[n].HoldsFor(active) <==> c[n].HoldsFor(active * u) {
      assert DependsOn(c[n], u);
    }
  }

  lemma UpdatedDependsOn(incoming: Edges, n: Node, c: Conditions, d: Conditions, u: set<nat>)
    requires AllDependOn(c, u) && Updated(incoming, n, c, d)
    ensures AllDependOn(d, u)
  {
    hide Fires;
    forall m | m in d ensures DependsOn(d[m], u) {
      if m == n {
        forall active ensures d[n].HoldsFor(active) <==> d[n].HoldsFor(active * u) {
          DependentNodes(c, u, active);
          assert n in Nodes(d, Under(active)) <==> d[n].HoldsFor(active);
          assert n in Nodes(d, Under(active * u)) <==> d[n].HoldsFor(active * u);
        }
      } else {
        assert d[m] == c[m];
      }
    }
  }

  // ---------- conditions only grow: a measure ----------

  ghost function Falses(c: ActivationCondition, u: set<nat>): set<set<nat>> {
    set active | active <= u && !c.HoldsFor(active)
  }

  ghost function Subsets(u: set<nat>): set<set<nat>> {
    set active | active <= u
  }

  /** How far a node's condition can still move: towards true, and out of being exclusive. */
  ghost function Room(c: Conditions, n: Node, u: set<nat>): nat {
    if n in c then |Falses(c[n], u)| + (if c[n].isExclusive then 1 else 0) else |Subsets(u)| + 2
  }

  /** The condition of a node came into being, or became more general, or stopped being exclusive. */
  ghost predicate Moved(n: Node, c: Conditions, d: Conditions) {
    && n in d && d[n].Valid()
    && (n in c ==> c[n].Valid() && d[n] != c[n] && d[n] == c[n].(groups := d[n].groups, isExclusive := false))
  }

  lemma MoreGeneral(c: ActivationCondition, d: ActivationCondition, u: set<nat>)
    requires c.Valid() && d.Valid() && DependsOn(c, u) && DependsOn(d, u) && forall active :: c.HoldsFor(active) ==> d.HoldsFor(active)
    ensures |Falses(d, u)| <= |Falses(c, u)|
    ensures c.groups != d.groups ==> |Falses(d, u)| < |Falses(c, u)|
  {
    hide Canonical;
    assert Falses(d, u) <= Falses(c, u);
    SubsetSize(Falses(d, u), Falses(c, u));
    if c.groups != d.groups {
      CanonicalUnique(c.groups, d.groups);
      var active :| Holds(c.groups, active) != Holds(d.groups, active);
      hide Holds;
      assert c.HoldsFor(active) != d.HoldsFor(active);
      assert active * u in Falses(c, u) && active * u !in Falses(d, u);
    }
  }

  lemma MovedHasLessRoom(incoming: Edges, n: Node, c: Conditions, d: Conditions, u: set<nat>)
    requires Updated(incoming, n, c, d) && Moved(n, c, d) && AllDependOn(c, u) && AllDependOn(d, u)
    ensures Room(d, n, u) < Room(c, n, u)
  {
    hide Fires, Holds, Canonical, DependsOn;
    if n !in c {
      assert Falses(d[n], u) <= Subsets(u);
      SubsetSize(Falses(d[n], u), Subsets(u));
    } else {
      forall active | c[n].HoldsFor(active) ensures d[n].HoldsFor(active) {
        UpdatedNodes(incoming, n, c, d, Under(active));
        assert n in Nodes(c, Under(active));
      }
      MoreGeneral(c[n], d[n], u);
    }
  }

  ghost function TotalRoom(c: Conditions, nodes: seq<Node>, u: set<nat>): nat {
    if nodes == [] then 0 else Room(c, nodes[0], u) + TotalRoom(c, nodes[1..], u)
  }

  lemma {:induction false} LessRoom(c: Conditions, d: Conditions, nodes: seq<Node>, n: Node, u: set<nat>)
    requires SameOutside({n}, c, d) && Room(d, n, u) < Room(c, n, u)
    ensures TotalRoom(d, nodes, u) <= TotalRoom(c, nodes, u)
    ensures n in nodes ==> TotalRoom(d, nodes, u) < TotalRoom(c, nodes, u)
  {
    if nodes != [] {
      LessRoom(c, d, nodes[1..], n, u);
      assert nodes[0] != n ==> Room(d, nodes[0], u) == Room(c, nodes[0], u);
      assert n in nodes ==> nodes[0] == n || n in nodes[1..];
    }
  }
}
