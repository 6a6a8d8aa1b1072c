/** Forests of parent links with ranks, and the equivalence that they stand for. */
module UnionFind {
  import opened Bits
  import opened IntSets

  lemma {:induction false} Pow2Exceeds(n: nat)
    ensures Pow2(n) > n
  {
    if n > 0 {
      Pow2Exceeds(n - 1);
    }
  }

  /** Ranks grow towards the roots. */
  ghost predicate Forest(parent: seq<nat>, rank: seq<nat>) {
    && |parent| == |rank|
    && (forall i :: 0 <= i < |parent| ==> parent[i] < |parent| && rank[i] < |parent|)
    && forall i :: 0 <= i < |parent| && parent[i] != i ==> rank[i] < rank[parent[i]]
  }

  ghost function Root(parent: seq<nat>, rank: seq<nat>, i: nat): (r: nat)
    requires Forest(parent, rank) && i < |parent|
    ensures r < |parent| && parent[r] == r && (r != i ==> rank[i] < rank[r])
    decreases |parent| - rank[i]
  {
    if parent[i] == i then i else Root(parent, rank, parent[i])
  }

  /** How many links lead from an element to its root. */
  ghost function Depth(parent: seq<nat>, rank: seq<nat>, i: nat): nat
    requires Forest(parent, rank) && i < |parent|
    decreases |parent| - rank[i]
  {
    if parent[i] == i then 0 else 1 + Depth(parent, rank, parent[i])
  }

  ghost function Class(parent: seq<nat>, rank: seq<nat>, r: nat): set<nat>
    requires Forest(parent, rank)
  {
    set i | 0 <= i < |parent| && Root(parent, rank, i) == r
  }

  /** A root of rank k has at least 2^k elements. */
  ghost predicate Sized(parent: seq<nat>, rank: seq<nat>)
    requires Forest(parent, rank)
  {
    forall r :: 0 <= r < |parent| && parent[r] == r ==> Pow2(rank[r]) <= |Class(parent, rank, r)|
  }

  lemma {:induction false} DepthWithinRank(parent: seq<nat>, rank: seq<nat>, i: nat)
    requires Forest(parent, rank) && i < |parent|
    ensures Depth(parent, rank, i) + rank[i] <= rank[Root(parent, rank, i)]
    decreases |parent| - rank[i]
  {
    if parent[i] != i {
      DepthWithinRank(parent, rank, parent[i]);
    }
  }

  /** Looking for a root takes at most logarithmically many steps. */
  lemma ChainsAreShort(parent: seq<nat>, rank: seq<nat>, i: nat)
    requires Forest(parent, rank) && Sized(parent, rank) && i < |parent|
    ensures Pow2(Depth(parent, rank, i)) <= |Class(parent, rank, Root(parent, rank, i))| <= |parent|
  {
    var r := Root(parent, rank, i);
    DepthWithinRank(parent, rank, i);
    Pow2Monotonic(Depth(parent, rank, i), rank[r]);
    SubsetSize(Class(parent, rank, r), Upto(|parent|));
  }

  // ---------- path compression ----------

  lemma CompressForest(parent: seq<nat>, rank: seq<nat>, i: nat)
    requires Forest(parent, rank) && i < |parent|
    ensures Forest(parent[i := Root(parent, rank, i)], rank)
  {
  }

  lemma {:induction false} CompressRoot(parent: seq<nat>, rank: seq<nat>, i: nat, x: nat)
    requires Forest(parent, rank) && i < |parent| && x < |parent|
    requires Forest(parent[i := Root(parent, rank, i)], rank)
    ensures Root(parent[i := Root(parent, rank, i)], rank, x) == Root(parent, rank, x)
    decreases |parent| - rank[x]
  {
    var after := parent[i := Root(parent, rank, i)];
    if x == i {
      assert after[Root(parent, rank, i)] == Root(parent, rank, i);
    } else if parent[x] != x {
      CompressRoot(parent, rank, i, parent[x]);
    }
  }

  ghost predicate SameRoots(parent: seq<nat>, parent': seq<nat>, rank: seq<nat>) {
    && |parent| == |parent'| && Forest(parent, rank) && Forest(parent', rank)
    && forall x :: 0 <= x < |parent| ==> Root(parent', rank, x) == Root(parent, rank, x)
  }

  /** Pointing an element at its root changes no class. */
  lemma Compressed(parent: seq<nat>, rank: seq<nat>, i: nat)
    requires Forest(parent, rank) && i < |parent|
    ensures SameRoots(parent, parent[i := Root(parent, rank, i)], rank)
  {
    CompressForest(parent, rank, i);
    forall x | 0 <= x < |parent| ensures Root(parent[i := Root(parent, rank, i)], rank, x) == Root(parent, rank, x) {
      CompressRoot(parent, rank, i, x);
    }
  }

  lemma SameRootsTrans(a: seq<nat>, b: seq<nat>, c: seq<nat>, rank: seq<nat>)
    requires SameRoots(a, b, rank) && SameRoots(b, c, rank)
    ensures SameRoots(a, c, rank)
  {
  }

  lemma SameRootsSameClasses(a: seq<nat>, b: seq<nat>, rank: seq<nat>)
    requires SameRoots(a, b, rank)
    ensures forall r :: Class(a, rank, r) == Class(b, rank, r)
    ensures forall r :: 0 <= r < |a| ==> (a[r] == r <==> b[r] == r)
    ensures Sized(a, rank) ==> Sized(b, rank)
  {
    forall r ensures Class(a, rank, r) == Class(b, rank, r) {
      forall x ensures x in Class(a, rank, r) <==> x in Class(b, rank, r) {
      }
    }
    forall r | 0 <= r < |a| ensures a[r] == r <==> b[r] == r {
      RootIsItself(a, rank, r);
      RootIsItself(b, rank, r);
    }
  }

  lemma RootIsItself(parent: seq<nat>, rank: seq<nat>, r: nat)
    requires Forest(parent, rank) && r < |parent|
    ensures parent[r] == r <==> Root(parent, rank, r) == r
  {
  }

  // ---------- linking two roots ----------

  /** The rank of the root that stays, which has grown if both were equal. */
  function LinkedRank(rank: seq<nat>, child: nat, root: nat): seq<nat>
    requires child < |rank| && root < |rank|
  {
    if rank[child] == rank[root] then rank[root := rank[root] + 1] else rank
  }

  ghost predicate CanLink(parent: seq<nat>, rank: seq<nat>, child: nat, root: nat) {
    && Forest(parent, rank) && Sized(parent, rank) && child < |parent| && root < |parent| && child != root
    && parent[child] == child && parent[root] == root && rank[child] <= rank[root]
  }

  lemma TwoClasses(parent: seq<nat>, rank: seq<nat>, child: nat, root: nat)
    requires CanLink(parent, rank, child, root)
    ensures |Class(parent, rank, child) + Class(parent, rank, root)| == |Class(parent, rank, child)| + |Class(parent, rank, root)|
    ensures |Class(parent, rank, child)| + |Class(parent, rank, root)| <= |parent|
  {
    var a, b := Class(parent, rank, child), Class(parent, rank, root);
    assert a !! b;
    SubsetSize(a + b, Upto(|parent|));
  }

  lemma RankHasRoom(parent: seq<nat>, rank: seq<nat>, child: nat, root: nat)
    requires CanLink(parent, rank, child, root) && rank[child] == rank[root]
    ensures rank[root] + 1 < |parent|
  {
    hide Class, Sized, Pow2;
    TwoClasses(parent, rank, child, root);
    SizedAt(parent, rank, child);
    SizedAt(parent, rank, root);
    Pow2Step(rank[root]);
    Pow2Exceeds(rank[root] + 1);
  }

  lemma LinkForest(parent: seq<nat>, rank: seq<nat>, child: nat, root: nat)
    requires CanLink(parent, rank, child, root)
    ensures Forest(parent[child := root], LinkedRank(rank, child, root))
  {
    if rank[child] == rank[root] {
      RankHasRoom(parent, rank, child, root);
    }
    hide Sized;
  }

  lemma {:induction false} LinkRoot(parent: seq<nat>, rank: seq<nat>, child: nat, root: nat, x: nat)
    requires CanLink(parent, rank, child, root) && x < |parent|
    requires Forest(parent[child := root], LinkedRank(rank, child, root))
    ensures Root(parent[child := root], LinkedRank(rank, child, root), x) ==
            if Root(parent, rank, x) == child then root else Root(parent, rank, x)
    decreases |parent| - rank[x]
  {
    hide Sized;
    var parent', rank' := parent[child := root], LinkedRank(rank, child, root);
    if x == child {
      assert parent'[root] == root;
    } else if parent[x] != x {
      LinkRoot(parent, rank, child, root, parent[x]);
    }
  }

  lemma SizedAt(parent: seq<nat>, rank: seq<nat>, r: nat)
    requires Forest(parent, rank) && Sized(parent, rank) && r < |parent| && parent[r] == r
    ensures Pow2(rank[r]) <= |Class(parent, rank, r)|
  {
  }

  lemma Pow2Step(n: nat)
    ensures Pow2(n + 1) == Pow2(n) + Pow2(n)
  {
  }

  lemma LinkSizedAt(parent: seq<nat>, rank: seq<nat>, child: nat, root: nat, r: nat)
    requires CanLink(parent, rank, child, root) && r < |parent| && parent[r] == r != child
    requires Forest(parent[child := root], LinkedRank(rank, child, root))
    ensures Pow2(LinkedRank(rank, child, root)[r]) <= |Class(parent[child := root], LinkedRank(rank, child, root), r)|
  {
    hide Class, Pow2, Sized;
    LinkClass(parent, rank, child, root, r);
    SizedAt(parent, rank, r);
    SizedAt(parent, rank, child);
    Pow2Step(rank[r]);
    if r == root {
      TwoClasses(parent, rank, child, root);
    }
  }

  lemma LinkSized(parent: seq<nat>, rank: seq<nat>, child: nat, root: nat)
    requires CanLink(parent, rank, child, root)
    requires Forest(parent[child := root], LinkedRank(rank, child, root))
    ensures Sized(parent[child := root], LinkedRank(rank, child, root))
  {
    hide Class, Pow2;
    var parent', rank' := parent[child := root], LinkedRank(rank, child, root);
    forall r | 0 <= r < |parent'| && parent'[r] == r ensures Pow2(rank'[r]) <= |Class(parent', rank', r)| {
      LinkSizedAt(parent, rank, child, root, r);
    }
  }

  lemma LinkClass(parent: seq<nat>, rank: seq<nat>, child: nat, root: nat, r: nat)
    requires CanLink(parent, rank, child, root) && r != child
    requires Forest(parent[child := root], LinkedRank(rank, child, root))
    ensures Class(parent[child := root], LinkedRank(rank, child, root), r) ==
            if r == root then Class(parent, rank, child) + Class(parent, rank, root) else Class(parent, rank, r)
  {
    hide Sized;
    var parent', rank' := parent[child := root], LinkedRank(rank, child, root);
    forall x | 0 <= x < |parent|
      ensures Root(parent', rank', x) == if Root(parent, rank, x) == child then root else Root(parent, rank, x)
    {
      LinkRoot(parent, rank, child, root, x);
    }
  }

  // ---------- the finest equivalence that holds what was united ----------

  /** A labelling that gives united elements the same label. */
  ghost predicate Respects(labels: seq<nat>, n: nat, unions: set<(nat, nat)>) {
    |labels| == n && forall x, y :: (x, y) in unions && x < n && y < n ==> labels[x] == labels[y]
  }

  /** Two elements are connected when every labelling that respects the unions gives them the same label. */
  ghost predicate Connected(n: nat, unions: set<(nat, nat)>, a: nat, b: nat)
    requires a < n && b < n
  {
    forall labels :: Respects(labels, n, unions) ==> labels[a] == labels[b]
  }

  ghost predicate Generated(parent: seq<nat>, rank: seq<nat>, unions: set<(nat, nat)>)
    requires Forest(parent, rank)
  {
    forall a, b :: 0 <= a < |parent| && 0 <= b < |parent| ==>
      (Root(parent, rank, a) == Root(parent, rank, b) <==> Connected(|parent|, unions, a, b))
  }

  ghost function Labels(parent: seq<nat>, rank: seq<nat>): (r: seq<nat>)
    requires Forest(parent, rank)
    ensures |r| == |parent| && forall i :: 0 <= i < |parent| ==> r[i] == Root(parent, rank, i)
  {
    seq(|parent|, i requires 0 <= i < |parent| => Root(parent, rank, i))
  }

  lemma RespectsLess(labels: seq<nat>, n: nat, less: set<(nat, nat)>, more: set<(nat, nat)>)
    requires less <= more && Respects(labels, n, more)
    ensures Respects(labels, n, less)
  {
  }

  /** Two elements whose roots agree already: uniting them adds nothing. */
  lemma UniteSame(parent: seq<nat>, rank: seq<nat>, unions: set<(nat, nat)>, a: nat, b: nat)
    requires Forest(parent, rank) && Generated(parent, rank, unions) && a < |parent| && b < |parent|
    requires Root(parent, rank, a) == Root(parent, rank, b)
    ensures Generated(parent, rank, unions + {(a, b)})
  {
    hide Forest;
    var n, more := |parent|, unions + {(a, b)};
    forall labels ensures Respects(labels, n, more) <==> Respects(labels, n, unions) {
      if Respects(labels, n, more) {
        RespectsLess(labels, n, unions, more);
      }
      if Respects(labels, n, unions) {
        SameLabel(parent, rank, unions, labels, a, b);
      }
    }
    forall x, y | 0 <= x < n && 0 <= y < n ensures Connected(n, unions, x, y) <==> Connected(n, more, x, y) {
      ConnectedSame(n, unions, more, x, y);
    }
    hide Respects, Connected;
  }

  lemma ConnectedSame(n: nat, a: set<(nat, nat)>, b: set<(nat, nat)>, x: nat, y: nat)
    requires x < n && y < n && forall labels :: Respects(labels, n, a) <==> Respects(labels, n, b)
    ensures Connected(n, a, x, y) <==> Connected(n, b, x, y)
  {
  }

  lemma LabelsRespect(parent: seq<nat>, rank: seq<nat>, unions: set<(nat, nat)>)
    requires Forest(parent, rank) && Generated(parent, rank, unions)
    ensures Respects(Labels(parent, rank), |parent|, unions)
  {
    forall x, y | (x, y) in unions && x < |parent| && y < |parent|
      ensures Root(parent, rank, x) == Root(parent, rank, y)
    {
      assert Connected(|parent|, unions, x, y);
    }
  }

  /** When two roots were linked because a and b were united, the classes are still the finest. */
  lemma UniteLinked(parent: seq<nat>, rank: seq<nat>, parent': seq<nat>, rank': seq<nat>, unions: set<(nat, nat)>, a: nat, b: nat, child: nat, root: nat)
    requires Forest(parent, rank) && Generated(parent, rank, unions) && Forest(parent', rank') && |parent'| == |parent|
    requires a < |parent| && b < |parent| && {Root(parent, rank, a), Root(parent, rank, b)} == {child, root}
    requires forall x :: 0 <= x < |parent| ==>
               Root(parent', rank', x) == if Root(parent, rank, x) == child then root else Root(parent, rank, x)
    ensures Generated(parent', rank', unions + {(a, b)})
  {
    var n, more := |parent|, unions + {(a, b)};
    LabelsRespect(parent, rank, unions);
    hide Forest;
    assert Root(parent, rank, a) in {child, root} && Root(parent, rank, b) in {child, root};
    assert Respects(Labels(parent', rank'), n, more);
    forall x, y | 0 <= x < n && 0 <= y < n
      ensures Root(parent', rank', x) == Root(parent', rank', y) <==> Connected(n, more, x, y)
    {
      if Root(parent', rank', x) == Root(parent', rank', y) {
        forall labels | Respects(labels, n, more) ensures labels[x] == labels[y] {
          RespectsLess(labels, n, unions, more);
          JoinedLabels(parent, rank, unions, a, b, child, root, labels, x);
          JoinedLabels(parent, rank, unions, a, b, child, root, labels, y);
          SameLabel(parent, rank, unions, labels, x, y);
        }
      }
    }
  }

  lemma SameLabel(parent: seq<nat>, rank: seq<nat>, unions: set<(nat, nat)>, labels: seq<nat>, x: nat, y: nat)
    requires Forest(parent, rank) && Generated(parent, rank, unions) && Respects(labels, |parent|, unions) && x < |parent| && y < |parent|
    ensures Root(parent, rank, x) == Root(parent, rank, y) ==> labels[x] == labels[y]
  {
    if Root(parent, rank, x) == Root(parent, rank, y) {
      assert Connected(|parent|, unions, x, y);
    }
  }

  /** Everything in the two classes has the label of a. */
  lemma JoinedLabels(parent: seq<nat>, rank: seq<nat>, unions: set<(nat, nat)>, a: nat, b: nat, child: nat, root: nat, labels: seq<nat>, x: nat)
    requires Forest(parent, rank) && Generated(parent, rank, unions) && Respects(labels, |parent|, unions)
    requires a < |parent| && b < |parent| && x < |parent| && labels[a] == labels[b]
    requires {Root(parent, rank, a), Root(parent, rank, b)} == {child, root}
    ensures Root(parent, rank, x) == child || Root(parent, rank, x) == root ==> labels[x] == labels[a]
  {
    SameLabel(parent, rank, unions, labels, x, a);
    SameLabel(parent, rank, unions, labels, x, b);
    assert child in {Root(parent, rank, a), Root(parent, rank, b)};
    assert root in {Root(parent, rank, a), Root(parent, rank, b)};
  }

  lemma GeneratedSameRoots(a: seq<nat>, b: seq<nat>, rank: seq<nat>, unions: set<(nat, nat)>)
    requires SameRoots(a, b, rank) && Generated(a, rank, unions)
    ensures Generated(b, rank, unions)
  {
  }

  /** At the start every element is alone. */
  lemma Alone(parent: seq<nat>, rank: seq<nat>)
    requires |parent| == |rank| && forall i :: 0 <= i < |parent| ==> parent[i] == i && rank[i] == 0
    ensures Forest(parent, rank) && Sized(parent, rank) && Generated(parent, rank, {})
  {
    forall r | 0 <= r < |parent| ensures Pow2(0) <= |Class(parent, rank, r)| {
      SubsetSize({r}, Class(parent, rank, r));
    }
    forall a, b | 0 <= a < |parent| && 0 <= b < |parent| && Connected(|parent|, {}, a, b) ensures a == b {
      assert Respects(Labels(parent, rank), |parent|, {});
    }
  }
}
