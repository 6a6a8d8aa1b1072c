/** Finite graphs given by their successor lists, and what leads where. */
module Reachability {

  datatype Node = InitFont | Segment(id: nat) | Unicode(id: nat) | Glyph(id: nat) | Feature(id: nat)

  type Graph = Node -> seq<Node>

  ghost predicate IsPath(g: Graph, p: seq<Node>) {
    p != [] && forall i :: 0 <= i < |p| - 1 ==> p[i + 1] in g(p[i])
  }

  ghost predicate Reach(g: Graph, u: Node, v: Node) {
    exists p :: IsPath(g, p) && p[0] == u && p[|p| - 1] == v
  }

  lemma ReachSelf(g: Graph, u: Node)
    ensures Reach(g, u, u)
  {
    assert IsPath(g, [u]) && [u][0] == u;
  }

  lemma ReachEdge(g: Graph, u: Node, v: Node)
    requires v in g(u)
    ensures Reach(g, u, v)
  {
    assert IsPath(g, [u, v]) && [u, v][0] == u && [u, v][1] == v;
  }

  lemma ReachTransitive(g: Graph, u: Node, v: Node, w: Node)
    requires Reach(g, u, v) && Reach(g, v, w)
    ensures Reach(g, u, w)
  {
    var p :| IsPath(g, p) && p[0] == u && p[|p| - 1] == v;
    var q :| IsPath(g, q) && q[0] == v && q[|q| - 1] == w;
    var r := p + q[1..];
    assert IsPath(g, r) by {
      forall i | 0 <= i < |r| - 1 ensures r[i + 1] in g(r[i]) {
        if i >= |p| - 1 {
          assert r[i] == q[i - |p| + 1] && r[i + 1] == q[i - |p| + 2];
        }
      }
    }
    assert r[0] == u && r[|r| - 1] == w;
  }

  /** A set that is closed under edges contains what its elements reach. */
  lemma ReachStaysIn(g: Graph, closed: set<Node>, u: Node, v: Node)
    requires (forall x, y :: x in closed && y in g(x) ==> y in closed) && u in closed && Reach(g, u, v)
    ensures v in closed
  {
    var p :| IsPath(g, p) && p[0] == u && p[|p| - 1] == v;
    PathStaysIn(g, closed, p, |p| - 1);
  }

  lemma {:induction false} PathStaysIn(g: Graph, closed: set<Node>, p: seq<Node>, i: nat)
    requires (forall x, y :: x in closed && y in g(x) ==> y in closed) && IsPath(g, p) && p[0] in closed && i < |p|
    ensures p[i] in closed
  {
    if i > 0 {
      PathStaysIn(g, closed, p, i - 1);
      assert p[i - 1 + 1] in g(p[i - 1]);
    }
  }
}
