/** Disjoint sets of glyphs, with union by rank, path compression and a cache of the sets. */
module GlyphPartition {
  import opened IntSets
  import opened SegmentGroups
  import opened UnionFind

  datatype Status = OkStatus | InvalidArgument

  /** The cache of all sets by their representative, and of the sets with more than one glyph, in order. */
  ghost predicate CacheOk(parent: seq<nat>, rank: seq<nat>, repToSet: map<nat, set<nat>>, groups: seq<set<nat>>)
    requires Forest(parent, rank)
  {
    && (forall r: nat :: r in repToSet <==> r < |parent| && parent[r] == r)
    && (forall r :: r in repToSet ==> repToSet[r] == Class(parent, rank, r))
    && GroupsOk(repToSet, groups)
  }

  ghost predicate GroupsOk(repToSet: map<nat, set<nat>>, groups: seq<set<nat>>) {
    && (forall g :: g in groups <==> exists r :: r in repToSet && repToSet[r] == g && |g| > 1)
    && SortedBy(SetLess, groups)
  }

  lemma CacheSameRoots(a: seq<nat>, b: seq<nat>, rank: seq<nat>, repToSet: map<nat, set<nat>>, groups: seq<set<nat>>)
    requires SameRoots(a, b, rank) && CacheOk(a, rank, repToSet, groups)
    ensures CacheOk(b, rank, repToSet, groups)
  {
    SameRootsSameClasses(a, b, rank);
    hide GroupsOk;
  }

  lemma StillValid(a: seq<nat>, b: seq<nat>, rank: seq<nat>, unions: set<(nat, nat)>, cacheValid: bool, repToSet: map<nat, set<nat>>, groups: seq<set<nat>>)
    requires SameRoots(a, b, rank) && Sized(a, rank) && Generated(a, rank, unions) && (cacheValid ==> CacheOk(a, rank, repToSet, groups))
    ensures Sized(b, rank) && Generated(b, rank, unions) && (cacheValid ==> CacheOk(b, rank, repToSet, groups))
  {
    SameRootsSameClasses(a, b, rank);
    GeneratedSameRoots(a, b, rank, unions);
    if cacheValid {
      CacheSameRoots(a, b, rank, repToSet, groups);
    }
  }

  lemma SameRootsSelf(parent: seq<nat>, rank: seq<nat>)
    requires Forest(parent, rank)
    ensures SameRoots(parent, parent, rank)
  {
  }

  /** Linking two roots for a union keeps the forest right. */
  lemma Linked(parent: seq<nat>, rank: seq<nat>, child: nat, root: nat, unions: set<(nat, nat)>, a: nat, b: nat)
    requires Forest(parent, rank) && Sized(parent, rank) && Generated(parent, rank, unions) && a < |parent| && b < |parent|
    requires |rank| == |parent| && child < |parent| && root < |parent| && parent[child] == child && parent[root] == root && child != root && rank[child] <= rank[root]
    requires {Root(parent, rank, a), Root(parent, rank, b)} == {child, root}
    ensures Forest(parent[child := root], LinkedRank(rank, child, root)) && Sized(parent[child := root], LinkedRank(rank, child, root))
    ensures Generated(parent[child := root], LinkedRank(rank, child, root), unions + {(a, b)})
  {
    hide Forest, Sized, Generated, LinkedRank, Root;
    assert CanLink(parent, rank, child, root);
    LinkForest(parent, rank, child, root);
    LinkSized(parent, rank, child, root);
    forall x | 0 <= x < |parent|
      ensures Root(parent[child := root], LinkedRank(rank, child, root), x) == if Root(parent, rank, x) == child then root else Root(parent, rank, x)
    {
      LinkRoot(parent, rank, child, root, x);
    }
    UniteLinked(parent, rank, parent[child := root], LinkedRank(rank, child, root), unions, a, b, child, root);
  }

  // ---------- uniting a whole set ----------

  ghost predicate ConstantOn(labels: seq<nat>, glyphs: set<nat>) {
    forall x, y :: x in glyphs && y in glyphs && x < |labels| && y < |labels| ==> labels[x] == labels[y]
  }

  ghost predicate ConstantOnFirst(labels: seq<nat>, v: seq<nat>, i: nat)
    requires i <= |v|
  {
    forall k :: 0 <= k < i && v[k] < |labels| && v[0] < |labels| ==> labels[v[k]] == labels[v[0]]
  }

  lemma UniteStep(labels: seq<nat>, n: nat, start: set<(nat, nat)>, before: set<(nat, nat)>, v: seq<nat>, i: nat)
    requires i < |v| && v[0] < n && v[i] < n
    requires Respects(labels, n, before) <==> Respects(labels, n, start) && ConstantOnFirst(labels, v, i)
    ensures Respects(labels, n, before + {(v[0], v[i])}) <==> Respects(labels, n, start) && ConstantOnFirst(labels, v, i + 1)
  {
    var now := before + {(v[0], v[i])};
    if Respects(labels, n, now) {
      RespectsLess(labels, n, before, now);
      assert (v[0], v[i]) in now;
    }
  }

  lemma UniteDone(labels: seq<nat>, n: nat, start: set<(nat, nat)>, now: set<(nat, nat)>, glyphs: set<nat>, v: seq<nat>, i: nat)
    requires v == ToVector(glyphs) && i <= |v| && (i < |v| ==> v[i] >= n) && forall k :: 0 <= k < i ==> v[k] < n
    requires Respects(labels, n, now) <==> Respects(labels, n, start) && ConstantOnFirst(labels, v, i)
    ensures Respects(labels, n, now) <==> Respects(labels, n, start) && ConstantOn(labels, glyphs)
  {
    hide ToVector;
    assert forall k :: i <= k < |v| ==> v[k] >= n;
    if |labels| == n && ConstantOnFirst(labels, v, i) {
      forall x, y | x in glyphs && y in glyphs && x < n && y < n ensures labels[x] == labels[y] {
        assert x in v && y in v;
        var k :| 0 <= k < |v| && v[k] == x;
        var m :| 0 <= m < |v| && v[m] == y;
      }
    }
    if |labels| == n && ConstantOn(labels, glyphs) {
      forall k | 0 <= k < i ensures labels[v[k]] == labels[v[0]] {
        assert v[k] in v && v[0] in v;
      }
    }
  }

  // ---------- the cache ----------

  /** The sets found among the first n glyphs. */
  ghost predicate Collected(parent: seq<nat>, rank: seq<nat>, n: nat, m: map<nat, set<nat>>)
    requires Forest(parent, rank) && n <= |parent|
  {
    && (forall r: nat, x: nat :: Holding(m, r, x) <==> x < n && Root(parent, rank, x) == r)
    && forall r: nat :: r in m ==> m[r] != {}
  }

  ghost predicate Holding(m: map<nat, set<nat>>, r: nat, x: nat) {
    r in m && x in m[r]
  }

  lemma CollectedNothing(parent: seq<nat>, rank: seq<nat>)
    requires Forest(parent, rank)
    ensures Collected(parent, rank, 0, map[])
  {
  }

  lemma CollectedSameRoots(a: seq<nat>, b: seq<nat>, rank: seq<nat>, n: nat, m: map<nat, set<nat>>)
    requires SameRoots(a, b, rank) && n <= |a| && Collected(a, rank, n, m)
    ensures Collected(b, rank, n, m)
  {
  }

  lemma ForestLengths(parent: seq<nat>, rank: seq<nat>)
    requires Forest(parent, rank)
    ensures |parent| == |rank|
  {
  }

  lemma CollectedOneMore(parent: seq<nat>, rank: seq<nat>, n: nat, m: map<nat, set<nat>>)
    requires Forest(parent, rank) && n < |parent| && Collected(parent, rank, n, m)
    ensures var r := Root(parent, rank, n);
            Collected(parent, rank, n + 1, m[r := (if r in m then m[r] else {}) + {n}])
  {
    hide Root;
    var r := Root(parent, rank, n);
    var more := m[r := (if r in m then m[r] else {}) + {n}];
    forall q: nat, x: nat ensures Holding(more, q, x) <==> Holding(m, q, x) || (q == r && x == n) {
    }
    hide Holding;
  }

  /** The sets with more than one glyph, in order. */
  method LargeGroups(repToSet: map<nat, set<nat>>) returns (groups: seq<set<nat>>)
    ensures GroupsOk(repToSet, groups)
  {
    groups := [];
    var rest := repToSet.Keys;
    while rest != {}
      invariant rest <= repToSet.Keys
      invariant forall g :: g in groups <==> exists r :: r in repToSet && r !in rest && repToSet[r] == g && |g| > 1
      decreases |rest|
    {
      var r :| r in rest;
      rest := rest - {r};
      if |repToSet[r]| > 1 {
        groups := groups + [repToSet[r]];
      }
    }
    SetLessIsWeakOrder();
    ghost var unsorted := groups;
    groups := Sort(groups, SetLess);
    forall g ensures g in groups <==> g in unsorted {
      assert g in groups <==> g in multiset(groups);
      assert g in unsorted <==> g in multiset(unsorted);
    }
  }

  lemma CacheBuilt(parent: seq<nat>, rank: seq<nat>, repToSet: map<nat, set<nat>>, groups: seq<set<nat>>)
    requires Forest(parent, rank) && Collected(parent, rank, |parent|, repToSet) && GroupsOk(repToSet, groups)
    ensures CacheOk(parent, rank, repToSet, groups)
  {
    hide GroupsOk;
    forall r: nat ensures r in repToSet <==> r < |parent| && parent[r] == r {
      if r < |parent| && parent[r] == r {
        RootIsItself(parent, rank, r);
        assert Holding(repToSet, r, r);
      }
      if r in repToSet {
        var x :| x in repToSet[r];
        assert Holding(repToSet, r, x);
      }
    }
    forall r | r in repToSet ensures repToSet[r] == Class(parent, rank, r) {
      forall x: nat ensures x in repToSet[r] <==> x in Class(parent, rank, r) {
        assert Holding(repToSet, r, x) <==> x in repToSet[r];
      }
    }
  }

  lemma ClassIsConnected(parent: seq<nat>, rank: seq<nat>, unions: set<(nat, nat)>, glyph: nat)
    requires Forest(parent, rank) && Generated(parent, rank, unions) && glyph < |parent|
    ensures forall g: nat :: g in Class(parent, rank, Root(parent, rank, glyph)) <==> g < |parent| && Connected(|parent|, unions, glyph, g)
  {
    hide Connected;
  }

  lemma GroupsAreClasses(parent: seq<nat>, rank: seq<nat>, repToSet: map<nat, set<nat>>, groups: seq<set<nat>>)
    requires Forest(parent, rank) && CacheOk(parent, rank, repToSet, groups)
    ensures SortedBy(SetLess, groups)
    ensures forall g :: g in groups <==> exists r :: 0 <= r < |parent| && parent[r] == r && Class(parent, rank, r) == g && |g| > 1
  {
    hide Class;
    forall g ensures g in groups <==> exists r :: 0 <= r < |parent| && parent[r] == r && Class(parent, rank, r) == g && |g| > 1 {
      if r :| 0 <= r < |parent| && parent[r] == r && Class(parent, rank, r) == g && |g| > 1 {
        assert r in repToSet && repToSet[r] == g;
      }
      if g in groups {
        var r :| r in repToSet && repToSet[r] == g && |g| > 1;
        assert Class(parent, rank, r) == g;
      }
    }
  }

  ghost predicate AreGroups(parent: seq<nat>, rank: seq<nat>, groups: seq<set<nat>>)
    requires Forest(parent, rank)
  {
    forall g :: g in groups <==> exists r :: 0 <= r < |parent| && parent[r] == r && Class(parent, rank, r) == g && |g| > 1
  }

  lemma GroupsInBounds(parent: seq<nat>, rank: seq<nat>, groups: seq<set<nat>>)
    requires Forest(parent, rank) && AreGroups(parent, rank, groups)
    ensures forall k, x :: 0 <= k < |groups| && x in groups[k] ==> x < |parent|
  {
    forall k, x | 0 <= k < |groups| && x in groups[k] ensures x < |parent| {
      assert groups[k] in groups;
    }
  }

  ghost predicate ConstantOnAll(labels: seq<nat>, groups: seq<set<nat>>, i: int)
    requires i <= |groups|
  {
    forall k :: 0 <= k < i ==> ConstantOn(labels, groups[k])
  }

  /** Being constant on another partition's classes is respecting its unions. */
  lemma ConstantOnClasses(labels: seq<nat>, start: set<(nat, nat)>, parent: seq<nat>, rank: seq<nat>, unions: set<(nat, nat)>, groups: seq<set<nat>>)
    requires Forest(parent, rank) && Generated(parent, rank, unions) && AreGroups(parent, rank, groups)
    ensures Respects(labels, |parent|, start) && ConstantOnAll(labels, groups, |groups|) <==> Respects(labels, |parent|, start + unions)
  {
    var n := |parent|;
    if Respects(labels, n, start + unions) {
      RespectsLess(labels, n, start, start + unions);
      RespectsLess(labels, n, unions, start + unions);
      forall k, x, y | 0 <= k < |groups| && x in groups[k] && y in groups[k] ensures x < n && y < n && labels[x] == labels[y] {
        assert groups[k] in groups;
        SameLabel(parent, rank, unions, labels, x, y);
      }
    }
    if Respects(labels, n, start) && ConstantOnAll(labels, groups, |groups|) {
      forall x, y | (x, y) in unions && x < n && y < n ensures labels[x] == labels[y] {
        LabelsRespect(parent, rank, unions);
        InOneGroup(parent, rank, unions, groups, x, y);
        if x != y {
          var k :| 0 <= k < |groups| && x in groups[k] && y in groups[k];
          assert ConstantOn(labels, groups[k]);
        }
      }
    }
  }

  lemma InOneGroup(parent: seq<nat>, rank: seq<nat>, unions: set<(nat, nat)>, groups: seq<set<nat>>, x: nat, y: nat)
    requires Forest(parent, rank) && AreGroups(parent, rank, groups) && x < |parent| && y < |parent|
    requires Root(parent, rank, x) == Root(parent, rank, y)
    ensures x != y ==> exists k :: 0 <= k < |groups| && x in groups[k] && y in groups[k]
  {
    if x != y {
      var r := Root(parent, rank, x);
      var g := Class(parent, rank, r);
      SubsetSize({x, y}, g);
      assert g in groups;
    }
  }

  // ---------- a cache that was made for other links ----------

  /** Every element has the same representative in both forests. */
  ghost predicate SameRepresentatives(parent: seq<nat>, rank: seq<nat>, parent': seq<nat>, rank': seq<nat>)
    requires Forest(parent, rank) && Forest(parent', rank')
  {
    && |parent| == |parent'|
    && forall x :: 0 <= x < |parent| ==> Root(parent, rank, x) == Root(parent', rank', x)
  }

  lemma ClassMember(parent: seq<nat>, rank: seq<nat>, r: nat, x: nat)
    requires Forest(parent, rank)
    ensures x in Class(parent, rank, r) <==> x < |parent| && Root(parent, rank, x) == r
  {
  }

  lemma CachedClass(parent: seq<nat>, rank: seq<nat>, repToSet: map<nat, set<nat>>, groups: seq<set<nat>>, x: nat)
    requires Forest(parent, rank) && CacheOk(parent, rank, repToSet, groups) && x < |parent|
    ensures var r := Root(parent, rank, x);
            r in repToSet && x in repToSet[r]
  {
    ClassMember(parent, rank, Root(parent, rank, x), x);
  }

  /** In a cache that fits, the set of r holds the elements that r represents. */
  lemma CachedMember(parent: seq<nat>, rank: seq<nat>, repToSet: map<nat, set<nat>>, groups: seq<set<nat>>, r: nat, x: nat)
    requires Forest(parent, rank) && CacheOk(parent, rank, repToSet, groups) && r in repToSet && x in repToSet[r]
    ensures x < |parent| && Root(parent, rank, x) == r
  {
    ClassMember(parent, rank, r, x);
  }

  /** A cache fits two forests only if they have the same representatives, and then it does. */
  lemma CacheFitsBoth(parent: seq<nat>, rank: seq<nat>, parent': seq<nat>, rank': seq<nat>, repToSet: map<nat, set<nat>>, groups: seq<set<nat>>)
    requires Forest(parent, rank) && Forest(parent', rank') && CacheOk(parent, rank, repToSet, groups)
    ensures CacheOk(parent', rank', repToSet, groups) <==> SameRepresentatives(parent, rank, parent', rank')
  {
    if CacheOk(parent', rank', repToSet, groups) {
      CacheDetermines(parent, rank, parent', rank', repToSet, groups);
      CacheDetermines(parent', rank', parent, rank, repToSet, groups);
    }
    if SameRepresentatives(parent, rank, parent', rank') {
      forall r: nat ensures Class(parent, rank, r) == Class(parent', rank', r) {
        forall x: nat ensures x in Class(parent, rank, r) <==> x in Class(parent', rank', r) {
          ClassMember(parent, rank, r, x);
          ClassMember(parent', rank', r, x);
        }
      }
      forall r: nat | r < |parent| ensures parent[r] == r <==> parent'[r] == r {
        RootIsItself(parent, rank, r);
        RootIsItself(parent', rank', r);
      }
    }
  }

  lemma CacheDetermines(parent: seq<nat>, rank: seq<nat>, parent': seq<nat>, rank': seq<nat>, repToSet: map<nat, set<nat>>, groups: seq<set<nat>>)
    requires Forest(parent, rank) && Forest(parent', rank')
    requires CacheOk(parent, rank, repToSet, groups) && CacheOk(parent', rank', repToSet, groups)
    ensures |parent| <= |parent'|
    ensures forall x :: 0 <= x < |parent| ==> x < |parent'| && Root(parent, rank, x) == Root(parent', rank', x)
  {
    hide CacheOk, Root;
    forall x | 0 <= x < |parent| ensures x < |parent'| && Root(parent, rank, x) == Root(parent', rank', x) {
      CachedClass(parent, rank, repToSet, groups, x);
      CachedMember(parent', rank', repToSet, groups, Root(parent, rank, x), x);
    }
    if |parent| > 0 {
      var last: nat := |parent| - 1;
      CachedClass(parent, rank, repToSet, groups, last);
      CachedMember(parent', rank', repToSet, groups, Root(parent, rank, last), last);
    }
  }

  /** Elements that were never united have different representatives. */
  lemma NeverUnited(parent: seq<nat>, rank: seq<nat>, a: nat, b: nat)
    requires Forest(parent, rank) && Generated(parent, rank, {}) && a < |parent| && b < |parent| && a != b
    ensures Root(parent, rank, a) != Root(parent, rank, b)
  {
    var labels := seq(|parent|, i requires 0 <= i < |parent| => if i == a then 0 else 1);
    assert Respects(labels, |parent|, {});
    assert !Connected(|parent|, {}, a, b);
  }

  lemma United(parent: seq<nat>, rank: seq<nat>, a: nat, b: nat)
    requires Forest(parent, rank) && a < |parent| && b < |parent| && Generated(parent, rank, {} + {(a, b)})
    ensures Root(parent, rank, a) == Root(parent, rank, b)
  {
    assert (a, b) in {} + {(a, b)};
    assert Connected(|parent|, {} + {(a, b)}, a, b);
  }

  class GlyphPartition {
    var rank: seq<nat>
    var parent: seq<nat>
    var cacheValid: bool
    var repToSet: map<nat, set<nat>>
    var nonIdentityGroups: seq<set<nat>>
    ghost var unions: set<(nat, nat)>

    /** The links stand for the finest equivalence that holds all unions, and a valid cache lists its classes. */
    ghost predicate Valid()
      reads this
    {
      && Forest(parent, rank) && Sized(parent, rank) && Generated(parent, rank, unions)
      && (cacheValid ==> CacheOk(parent, rank, repToSet, nonIdentityGroups))
    }

    constructor (numGlyphs: nat)
      ensures Valid() && |parent| == numGlyphs && unions == {} && !cacheValid
    {
      rank := seq(numGlyphs, _ => 0);
      parent := seq(numGlyphs, i => i);
      cacheValid, repToSet, nonIdentityGroups, unions := false, map[], [], {};
      new;
      Alone(parent, rank);
    }

    /** The copy starts without a cache. */
    constructor Copy(other: GlyphPartition)
      requires other.Valid()
      ensures Valid() && parent == other.parent && rank == other.rank && unions == other.unions && !cacheValid
    {
      rank, parent, unions := other.rank, other.parent, other.unions;
      cacheValid, repToSet, nonIdentityGroups := false, map[], [];
    }

    /** The representative of a glyph's set; everything on the way is made to point at it. */
    method Find(glyph: nat) returns (status: Status, r: nat)
      requires Valid()
      modifies `parent
      ensures Valid() && SameRoots(old(parent), parent, rank)
      ensures status == OkStatus <==> glyph < |parent|
      ensures status == OkStatus ==> r == Root(parent, rank, glyph) == parent[glyph]
      decreases if glyph < |parent| then |parent| - rank[glyph] else 0
    {
      hide Sized, Generated, CacheOk, Class;
      if glyph >= |parent| {
        return InvalidArgument, 0;
      }
      if parent[glyph] != glyph {
        ghost var before := parent;
        var root;
        status, root := Find(parent[glyph]);
        ghost var middle := parent;
        Compressed(parent, rank, glyph);
        parent := parent[glyph := root];
        SameRootsTrans(before, middle, parent, rank);
        StillValid(middle, parent, rank, unions, cacheValid, repToSet, nonIdentityGroups);
      }
      status, r := OkStatus, parent[glyph];
    }

    /** Puts the sets of two glyphs together. */
    method Union(glyph1: nat, glyph2: nat) returns (status: Status)
      requires Valid()
      modifies this
      ensures Valid() && |parent| == |old(parent)|
      ensures status == OkStatus <==> glyph1 < |parent| && glyph2 < |parent|
      ensures unions == if status == OkStatus then old(unions) + {(glyph1, glyph2)} else old(unions)
    {
      hide Sized, Generated, CacheOk, Class, Forest;
      if glyph1 >= |parent| || glyph2 >= |parent| {
        return InvalidArgument;
      }
      ghost var was := parent;
      var root1, root2;
      status, root1 := Find(glyph1);
      ghost var between := parent;
      status, root2 := Find(glyph2);
      assert Root(parent, rank, glyph1) == root1;
      ForestLengths(parent, rank);
      if root1 == root2 {
        UniteSame(parent, rank, unions, glyph1, glyph2);
        unions := unions + {(glyph1, glyph2)};
        return OkStatus;
      }
      ghost var before, ranks := parent, rank;
      if rank[root1] < rank[root2] {
        parent := parent[root1 := root2];
        Linked(before, ranks, root1, root2, unions, glyph1, glyph2);
      } else if rank[root1] > rank[root2] {
        parent := parent[root2 := root1];
        Linked(before, ranks, root2, root1, unions, glyph1, glyph2);
      } else {
        parent := parent[root2 := root1];
        rank := rank[root1 := rank[root1] + 1];
        Linked(before, ranks, root2, root1, unions, glyph1, glyph2);
      }
      cacheValid := false;
      unions := unions + {(glyph1, glyph2)};
      status := OkStatus;
    }

    /** Puts the sets of all glyphs together, up to the first one that is out of bounds. */
    method UnionAll(glyphs: set<nat>) returns (status: Status)
      requires Valid()
      modifies this
      ensures Valid() && |parent| == |old(parent)|
      ensures status == OkStatus <==> forall g :: g in glyphs ==> g < |parent|
      ensures forall labels :: Respects(labels, |parent|, unions) <==>
                Respects(labels, |parent|, old(unions)) && ConstantOn(labels, glyphs)
    {
      hide Forest, Sized, Generated, CacheOk, Class, Respects, ToVector;
      var v := ToVector(glyphs);
      ghost var n, start := |parent|, unions;
      if glyphs == {} {
        forall labels { UniteDone(labels, n, start, unions, glyphs, v, 0); }
        return OkStatus;
      }
      var first := v[0];
      assert first in v;
      if first >= |parent| {
        forall labels { UniteDone(labels, n, start, unions, glyphs, v, 0); }
        return InvalidArgument;
      }
      for i := 1 to |v|
        invariant Valid() && |parent| == n
        invariant forall k :: 0 <= k < i ==> v[k] < n
        invariant forall labels :: Respects(labels, n, unions) <==> Respects(labels, n, start) && ConstantOnFirst(labels, v, i)
      {
        ghost var before := unions;
        var second := v[i];
        assert second in v;
        if second >= |parent| {
          forall labels { UniteDone(labels, n, start, unions, glyphs, v, i); }
          return InvalidArgument;
        }
        status := Union(first, second);
        forall labels { UniteStep(labels, n, start, before, v, i); }
      }
      forall labels { UniteDone(labels, n, start, unions, glyphs, v, |v|); }
      assert forall g :: g in glyphs ==> g in v;
      status := OkStatus;
    }

    /** Rebuilds the cache from the links. */
    method RebuildCache()
      requires Valid()
      modifies `parent, `cacheValid, `repToSet, `nonIdentityGroups
      ensures Valid() && cacheValid && SameRoots(old(parent), parent, rank)
    {
      hide Sized, Generated, CacheOk, Class, GroupsOk, Forest, Collected;
      CollectSets();
      nonIdentityGroups := LargeGroups(repToSet);
      CacheBuilt(parent, rank, repToSet, nonIdentityGroups);
      cacheValid := true;
    }

    method CollectSets()
      requires Valid()
      modifies `parent, `cacheValid, `repToSet
      ensures Valid() && !cacheValid && SameRoots(old(parent), parent, rank) && Collected(parent, rank, |parent|, repToSet)
    {
      hide Sized, Generated, CacheOk, Class, GroupsOk, Forest, Collected;
      cacheValid := false;
      repToSet := map[];
      CollectedNothing(parent, rank);
      SameRootsSelf(parent, rank);
      for i := 0 to |parent|
        invariant Valid() && !cacheValid && |parent| == |old(parent)| && SameRoots(old(parent), parent, rank)
        invariant Collected(parent, rank, i, repToSet)
      {
        ghost var before := parent;
        var status, r := Find(i);
        SameRootsTrans(old(parent), before, parent, rank);
        CollectedSameRoots(before, parent, rank, i, repToSet);
        CollectedOneMore(parent, rank, i, repToSet);
        var known := if r in repToSet then repToSet[r] else {};
        repToSet := repToSet[r := known + {i}];
      }
    }

    /** All glyphs in the set of a glyph. */
    method GlyphsFor(glyph: nat) returns (status: Status, glyphs: set<nat>)
      requires Valid()
      modifies `parent, `cacheValid, `repToSet, `nonIdentityGroups
      ensures Valid() && |parent| == |old(parent)|
      ensures status == OkStatus <==> glyph < |parent|
      ensures status == OkStatus ==> cacheValid
      ensures status == OkStatus ==> forall g: nat :: g in glyphs <==> g < |parent| && Connected(|parent|, unions, glyph, g)
    {
      hide Sized, Forest, GroupsOk;
      if glyph >= |parent| {
        return InvalidArgument, {};
      }
      if !cacheValid {
        RebuildCache();
      }
      var rep;
      status, rep := Find(glyph);
      ClassIsConnected(parent, rank, unions, glyph);
      glyphs := repToSet[rep];
    }

    /** The sets with more than one glyph. */
    method NonIdentityGroups() returns (groups: seq<set<nat>>)
      requires Valid()
      modifies `parent, `cacheValid, `repToSet, `nonIdentityGroups
      ensures Valid() && |parent| == |old(parent)| && SortedBy(SetLess, groups)
      ensures SameRoots(old(parent), parent, rank)
      ensures AreGroups(parent, rank, groups)
    {
      hide Sized, Generated, Class, Forest;
      SameRootsSelf(parent, rank);
      if !cacheValid {
        RebuildCache();
      }
      groups := nonIdentityGroups;
      GroupsAreClasses(parent, rank, repToSet, groups);
    }

    /** Puts together what another partition has together. */
    method UnionPartition(other: GlyphPartition) returns (status: Status)
      requires Valid() && other.Valid()
      modifies this, other
      ensures Valid() && other.Valid() && |parent| == |old(parent)| && |other.parent| == |old(other.parent)|
      ensures status == OkStatus <==> |parent| == |other.parent|
      ensures status != OkStatus ==> unions == old(unions)
      ensures status == OkStatus ==> forall labels :: Respects(labels, |parent|, unions) <==> Respects(labels, |parent|, old(unions) + old(other.unions))
      ensures other != this ==> other.unions == old(other.unions)
    {
      hide Forest, Sized, Generated, CacheOk, Class, Respects, ConstantOn, AreGroups;
      if |other.parent| != |parent| {
        return InvalidArgument;
      }
      var groups := other.NonIdentityGroups();
      ghost var n, start, theirs, links, ranks := |parent|, unions, other.unions, other.parent, other.rank;
      GroupsInBounds(links, ranks, groups);
      for i := 0 to |groups|
        invariant Valid() && other.Valid() && |parent| == n == |other.parent| && (other != this ==> other.unions == theirs)
        invariant forall labels :: Respects(labels, n, unions) <==> Respects(labels, n, start) && ConstantOnAll(labels, groups, i)
      {
        assert groups[i] in groups;
        status := UnionAll(groups[i]);
      }
      forall labels { ConstantOnClasses(labels, start, links, ranks, theirs, groups); }
      status := OkStatus;
    }

    /** Assignment copies the links but leaves the cache as it is: if it was valid, it fits the new links exactly when
        every glyph keeps its representative. */
    method Assign(other: GlyphPartition)
      requires Valid() && other.Valid()
      modifies this
      ensures parent == old(other.parent) && rank == old(other.rank) && unions == old(other.unions)
      ensures cacheValid == old(cacheValid) && repToSet == old(repToSet) && nonIdentityGroups == old(nonIdentityGroups)
      ensures !old(cacheValid) ==> Valid()
      ensures old(cacheValid) ==> (Valid() <==> SameRepresentatives(old(parent), old(rank), old(other.parent), old(other.rank)))
    {
      if cacheValid {
        CacheFitsBoth(parent, rank, other.parent, other.rank, repToSet, nonIdentityGroups);
      }
      if this == other {
        return;
      }
      rank := other.rank;
      parent := other.parent;
      unions := other.unions;
    }
  }

  /** A partition whose sets were asked for, and that another one was then assigned to: its cache is wrong. */
  method AssignedCacheIsWrong() returns (p: GlyphPartition)
    ensures fresh(p) && p.cacheValid && !p.Valid()
  {
    p := new GlyphPartition(2);
    var status := p.Union(0, 1);
    var glyphs;
    status, glyphs := p.GlyphsFor(0);
    var q := new GlyphPartition(2);
    ghost var parent, rank := p.parent, p.rank;
    United(parent, rank, 0, 1);
    NeverUnited(q.parent, q.rank, 0, 1);
    assert !SameRepresentatives(parent, rank, q.parent, q.rank);
    p.Assign(q);
  }
}
