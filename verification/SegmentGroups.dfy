/** Lists of segment groups in conjunctive normal form: (s or ..) and (s or ..) and .., and their canonical form. */
module SegmentGroups {
  import opened IntSets

  type Group = set<nat>

  /** The condition holds when every group has a segment among the active ones. */
  ghost predicate Holds(groups: seq<Group>, active: set<nat>) {
    forall i :: 0 <= i < |groups| ==> groups[i] * active != {}
  }

  // ---------- the order of sets ----------

  /** Lexicographic: the first difference decides, a proper prefix comes first. */
  predicate Lex(a: seq<nat>, b: seq<nat>) {
    if b == [] then false
    else if a == [] then true
    else a[0] < b[0] || (a[0] == b[0] && Lex(a[1..], b[1..]))
  }

  predicate SetLess(a: Group, b: Group) {
    Lex(ToVector(a), ToVector(b))
  }

  lemma {:induction false} LexTrichotomy(a: seq<nat>, b: seq<nat>)
    ensures Lex(a, b) ==> !Lex(b, a) && a != b
    ensures !Lex(a, b) && !Lex(b, a) ==> a == b
  {
    if a != [] && b != [] {
      LexTrichotomy(a[1..], b[1..]);
      assert a == [a[0]] + a[1..] && b == [b[0]] + b[1..];
    }
  }

  lemma {:induction false} LexTransitive(a: seq<nat>, b: seq<nat>, c: seq<nat>)
    requires Lex(a, b) && Lex(b, c)
    ensures Lex(a, c)
  {
    if a != [] && a[0] == b[0] == c[0] {
      LexTransitive(a[1..], b[1..], c[1..]);
    }
  }

  /** Sets are totally ordered. */
  lemma SetOrder(a: Group, b: Group)
    ensures SetLess(a, b) ==> !SetLess(b, a) && a != b
    ensures !SetLess(a, b) && !SetLess(b, a) ==> a == b
  {
    hide ToVector, Lex;
    LexTrichotomy(ToVector(a), ToVector(b));
    if ToVector(a) == ToVector(b) {
      assert forall x :: x in a <==> x in ToVector(a);
      assert a == b;
    }
  }

  lemma SetOrderTransitive(a: Group, b: Group, c: Group)
    requires SetLess(a, b) && SetLess(b, c)
    ensures SetLess(a, c)
  {
    LexTransitive(ToVector(a), ToVector(b), ToVector(c));
  }

  /** IntSet::operator<, walking both sets at once. */
  method LessThan(a: Group, b: Group) returns (r: bool)
    ensures r == SetLess(a, b)
  {
    hide ToVector;
    var av, bv := ToVector(a), ToVector(b);
    var i := 0;
    assert av[0..] == av && bv[0..] == bv;
    while i < |av| && i < |bv|
      invariant 0 <= i <= |av| && i <= |bv|
      invariant SetLess(a, b) == Lex(av[i..], bv[i..])
    {
      assert av[i..][1..] == av[i + 1..] && bv[i..][1..] == bv[i + 1..];
      if av[i] < bv[i] {
        return true;
      } else if av[i] > bv[i] {
        return false;
      }
      i := i + 1;
    }
    return i == |av| && i < |bv|;
  }

  // ---------- canonical form ----------

  predicate Sorted(groups: seq<Group>) {
    forall i, j :: 0 <= i < j < |groups| ==> SetLess(groups[i], groups[j])
  }

  predicate Antichain(groups: seq<Group>) {
    forall i, j :: 0 <= i < |groups| && 0 <= j < |groups| && i != j ==> !(groups[i] <= groups[j])
  }

  predicate Canonical(groups: seq<Group>) {
    Sorted(groups) && Antichain(groups)
  }

  /** A group that no other group makes redundant. */
  ghost predicate Minimal(groups: seq<Group>, g: Group) {
    g in groups && forall h :: h in groups && h <= g ==> h == g
  }

  /** Every group contains a minimal one. */
  lemma {:induction false} MinimalBelow(groups: seq<Group>, g: Group) returns (m: Group)
    requires g in groups
    ensures Minimal(groups, m) && m <= g
    decreases |g|
  {
    if Minimal(groups, g) {
      m := g;
    } else {
      var h :| h in groups && h <= g && h != g;
      assert |h| < |g| by { SmallerSubset(h, g); }
      m := MinimalBelow(groups, h);
    }
  }

  lemma SmallerSubset(a: Group, b: Group)
    ensures a <= b && a != b ==> |a| < |b|
  {
    if a <= b {
      SubsetSize(a, b);
    }
  }

  /** Groups that other groups imply do not matter. */
  lemma OnlyMinimalMatter(groups: seq<Group>, kept: seq<Group>, active: set<nat>)
    requires forall g :: g in kept <==> Minimal(groups, g)
    ensures Holds(kept, active) <==> Holds(groups, active)
  {
    if Holds(kept, active) {
      forall i | 0 <= i < |groups| ensures groups[i] * active != {} {
        var m := MinimalBelow(groups, groups[i]);
        var k :| 0 <= k < |kept| && kept[k] == m;
        assert m * active <= groups[i] * active;
      }
    }
    if Holds(groups, active) {
      forall i | 0 <= i < |kept| ensures kept[i] * active != {} {
        assert kept[i] in kept;
        var k :| 0 <= k < |groups| && groups[k] == kept[i];
      }
    }
  }

  /** Sorted lists with the same groups are equal. */
  lemma {:induction false} SortedUnique(a: seq<Group>, b: seq<Group>)
    requires Sorted(a) && Sorted(b) && forall g :: g in a <==> g in b
    ensures a == b
  {
    hide SetLess;
    if a == [] {
      assert forall i :: 0 <= i < |b| ==> b[i] in b;
    } else {
      assert a[0] in b && b[0] in a by { assert a[0] in a; assert b != []; assert b[0] in b; }
      SetOrder(a[0], b[0]);
      forall g ensures g in a[1..] <==> g in b[1..] {
        TailMembers(a, g);
        TailMembers(b, g);
      }
      SortedUnique(a[1..], b[1..]);
      assert a == [a[0]] + a[1..] && b == [b[0]] + b[1..];
    }
  }

  lemma TailMembers(a: seq<Group>, g: Group)
    requires a != [] && Sorted(a)
    ensures g in a[1..] <==> g in a && g != a[0]
  {
    if g in a[1..] {
      var i :| 0 < i < |a| && a[i] == g;
      SetOrder(a[0], a[i]);
    }
  }

  ghost function Segments(groups: seq<Group>): set<nat> {
    set i, x | 0 <= i < |groups| && x in groups[i] :: x
  }

  /** A group of one form of the condition contains a group of any other form. */
  lemma ImpliedGroup(a: seq<Group>, b: seq<Group>, g: Group) returns (h: Group)
    requires g in a && forall active :: Holds(b, active) ==> Holds(a, active)
    ensures h in b && h <= g
  {
    var active := Segments(b) - g;
    var k :| 0 <= k < |a| && a[k] == g;
    assert g * active == {};
    assert !Holds(a, active);
    var i :| 0 <= i < |b| && b[i] * active == {};
    h := b[i];
    assert forall x :: x in h ==> x in Segments(b);
    assert forall x :: x in h && x in active ==> x in b[i] * active;
  }

  ghost predicate SameFunction(a: seq<Group>, b: seq<Group>) {
    forall active :: Holds(a, active) <==> Holds(b, active)
  }

  /** Two canonical lists denote the same function only if they are equal. */
  lemma CanonicalUnique(a: seq<Group>, b: seq<Group>)
    requires Canonical(a) && Canonical(b)
    ensures SameFunction(a, b) <==> a == b
  {
    if SameFunction(a, b) {
      forall g | g in a ensures g in b {
        SharedGroup(a, b, g);
      }
      forall g | g in b ensures g in a {
        SharedGroup(b, a, g);
      }
      SortedUnique(a, b);
    }
  }

  lemma SharedGroup(a: seq<Group>, b: seq<Group>, g: Group)
    requires Antichain(a) && g in a && SameFunction(a, b)
    ensures g in b
  {
    var h := ImpliedGroup(a, b, g);
    var g' := ImpliedGroup(b, a, h);
    var i :| 0 <= i < |a| && a[i] == g;
    var j :| 0 <= j < |a| && a[j] == g';
    assert a[j] <= a[i];
    assert h == g;
  }

  /** Canonical is about the members: an antichain listed in order. */
  lemma SubsetOfCanonical(groups: seq<Group>, kept: seq<Group>)
    requires Canonical(groups) && Sorted(kept) && forall g :: g in kept ==> g in groups
    ensures Canonical(kept)
  {
    forall i, j | 0 <= i < |kept| && 0 <= j < |kept| && i != j ensures !(kept[i] <= kept[j]) {
      SetOrder(kept[i], kept[j]);
      assert kept[i] in groups && kept[j] in groups;
    }
  }

  // ---------- sorting ----------

  ghost predicate WeakOrder(less: (Group, Group) -> bool) {
    && (forall x, y :: less(x, y) ==> !less(y, x))
    && (forall x, y, z :: !less(x, y) && !less(y, z) ==> !less(x, z))
  }

  ghost predicate SortedBy(less: (Group, Group) -> bool, groups: seq<Group>) {
    forall i, j :: 0 <= i < j < |groups| ==> !less(groups[j], groups[i])
  }

  method InsertSorted(groups: seq<Group>, less: (Group, Group) -> bool, g: Group) returns (r: seq<Group>)
    requires WeakOrder(less) && SortedBy(less, groups)
    ensures SortedBy(less, r) && multiset(r) == multiset(groups) + multiset{g}
  {
    var k := |groups|;
    while k > 0 && less(g, groups[k - 1])
      invariant 0 <= k <= |groups|
      invariant forall i :: k <= i < |groups| ==> less(g, groups[i])
    {
      k := k - 1;
    }
    r := groups[..k] + [g] + groups[k..];
    assert groups == groups[..k] + groups[k..];
    InsertedSorted(groups, less, g, k);
  }

  lemma InsertedSorted(groups: seq<Group>, less: (Group, Group) -> bool, g: Group, k: nat)
    requires WeakOrder(less) && SortedBy(less, groups) && k <= |groups|
    requires forall i :: k <= i < |groups| ==> less(g, groups[i])
    requires k > 0 ==> !less(g, groups[k - 1])
    ensures SortedBy(less, groups[..k] + [g] + groups[k..])
  {
    var r := groups[..k] + [g] + groups[k..];
    forall i | 0 <= i < k ensures !less(g, groups[i]) {
      assert i < k - 1 ==> !less(groups[k - 1], groups[i]);
    }
    forall i | k <= i < |groups| ensures !less(groups[i], g) {
      assert less(g, groups[i]);
    }
    hide WeakOrder;
    forall i, j | 0 <= i < j < |r| ensures !less(r[j], r[i]) {
      assert r[i] == if i < k then groups[i] else if i == k then g else groups[i - 1];
      assert r[j] == if j < k then groups[j] else if j == k then g else groups[j - 1];
    }
  }

  /** std::sort with a comparison. */
  method Sort(groups: seq<Group>, less: (Group, Group) -> bool) returns (r: seq<Group>)
    requires WeakOrder(less)
    ensures SortedBy(less, r) && multiset(r) == multiset(groups)
  {
    r := [];
    for i := 0 to |groups|
      invariant SortedBy(less, r) && multiset(r) == multiset(groups[..i])
    {
      r := InsertSorted(r, less, groups[i]);
      assert groups[..i + 1] == groups[..i] + [groups[i]];
    }
    assert groups[..|groups|] == groups;
  }

  predicate Smaller(a: Group, b: Group) {
    |a| < |b|
  }

  lemma SetLessIsWeakOrder()
    ensures WeakOrder(SetLess)
  {
    forall x, y ensures SetLess(x, y) ==> !SetLess(y, x) {
      SetOrder(x, y);
    }
    forall x, y, z | !SetLess(x, y) && !SetLess(y, z) ensures !SetLess(x, z) {
      SetOrder(x, y);
      SetOrder(y, z);
      SetOrder(x, z);
      if SetLess(x, z) && SetLess(z, y) {
        SetOrderTransitive(x, z, y);
      }
    }
  }

  // ---------- simplification ----------

  /** An earlier group is contained in group j; only those before n are considered. */
  ghost predicate Covered(groups: seq<Group>, n: int, j: int)
    requires 0 <= j < |groups| && n <= |groups|
  {
    exists k :: 0 <= k < n && k < j && groups[k] <= groups[j]
  }

  /** Marks the groups that contain an earlier one. */
  method MarkRedundant(groups: seq<Group>) returns (redundant: seq<bool>)
    ensures |redundant| == |groups|
    ensures forall j :: 0 <= j < |groups| ==> (redundant[j] <==> Covered(groups, |groups|, j))
  {
    redundant := seq(|groups|, _ => false);
    for i := 0 to |groups|
      invariant |redundant| == |groups|
      invariant forall j :: 0 <= j < |groups| ==> (redundant[j] <==> Covered(groups, i, j))
    {
      ghost var before := redundant;
      if !redundant[i] {
        for j := i + 1 to |groups|
          invariant |redundant| == |groups|
          invariant forall m :: 0 <= m < |groups| ==>
            (redundant[m] <==> before[m] || (i < m < j && groups[i] <= groups[m]))
        {
          if !redundant[j] && groups[i] <= groups[j] {
            redundant := redundant[j := true];
          }
        }
      } else {
        var k :| 0 <= k < i && groups[k] <= groups[i];
        assert forall j :: 0 <= j < |groups| && i < j && groups[i] <= groups[j] ==> Covered(groups, i, j);
      }
      forall j | 0 <= j < |groups| ensures redundant[j] <==> Covered(groups, i + 1, j) {
        assert Covered(groups, i + 1, j) <==> Covered(groups, i, j) || (i < j && groups[i] <= groups[j]);
      }
    }
  }

  ghost function Kept(groups: seq<Group>, redundant: seq<bool>, n: nat): seq<Group>
    requires |redundant| == |groups| && n <= |groups|
  {
    if n == 0 then []
    else Kept(groups, redundant, n - 1) + (if redundant[n - 1] then [] else [groups[n - 1]])
  }

  lemma {:induction false} KeptMembers(groups: seq<Group>, redundant: seq<bool>, n: nat)
    requires |redundant| == |groups| && n <= |groups|
    ensures |Kept(groups, redundant, n)| <= n
    ensures forall g :: g in Kept(groups, redundant, n) <==> exists j :: 0 <= j < n && !redundant[j] && groups[j] == g
  {
    if n > 0 {
      KeptMembers(groups, redundant, n - 1);
      forall g ensures g in Kept(groups, redundant, n) <==> exists j :: 0 <= j < n && !redundant[j] && groups[j] == g {
        assert g in Kept(groups, redundant, n) <==>
               g in Kept(groups, redundant, n - 1) || (!redundant[n - 1] && groups[n - 1] == g);
      }
    }
  }

  lemma KeptPrefix(groups: seq<Group>, redundant: seq<bool>, n: nat)
    requires |redundant| == |groups| && n <= |groups|
    ensures |Kept(groups, redundant, n)| <= n
  {
    KeptMembers(groups, redundant, n);
  }

  /** Moves the groups that are not redundant to the front and drops the rest. */
  method Compact(groups: seq<Group>, redundant: seq<bool>) returns (conditions: seq<Group>)
    requires |redundant| == |groups|
    ensures conditions == Kept(groups, redundant, |groups|)
  {
    conditions := groups;
    var writeIndex := 0;
    for i := 0 to |groups|
      invariant |conditions| == |groups| && writeIndex <= i
      invariant conditions[..writeIndex] == Kept(groups, redundant, i)
      invariant forall k :: i <= k < |groups| ==> conditions[k] == groups[k]
    {
      KeptPrefix(groups, redundant, i + 1);
      assert Kept(groups, redundant, i) + [] == Kept(groups, redundant, i);
      if !redundant[i] {
        ghost var front := conditions[..writeIndex];
        if writeIndex != i {
          conditions := conditions[writeIndex := conditions[i]];
        }
        assert conditions[..writeIndex + 1] == front + [groups[i]];
        writeIndex := writeIndex + 1;
      }
    }
    conditions := conditions[..writeIndex];
  }

  ghost predicate Distinct(groups: seq<Group>) {
    forall i, j :: 0 <= i < j < |groups| ==> groups[i] != groups[j]
  }

  lemma {:induction false} KeptDistinct(groups: seq<Group>, redundant: seq<bool>, n: nat)
    requires |redundant| == |groups| && n <= |groups|
    requires forall j :: 0 <= j < |groups| ==> (redundant[j] <==> Covered(groups, |groups|, j))
    ensures Distinct(Kept(groups, redundant, n))
  {
    if n > 0 {
      KeptDistinct(groups, redundant, n - 1);
      var before := Kept(groups, redundant, n - 1);
      if redundant[n - 1] {
        assert Kept(groups, redundant, n) == before;
      } else {
        assert groups[n - 1] !in before by {
          KeptMembers(groups, redundant, n - 1);
          assert !Covered(groups, |groups|, n - 1);
          assert forall j :: 0 <= j < n - 1 ==> groups[j] != groups[n - 1];
        }
        assert Kept(groups, redundant, n) == before + [groups[n - 1]];
        assert forall i :: 0 <= i < |before| ==> before[i] in before;
      }
    }
  }

  /** With the groups sorted by size, those without an earlier subset are the minimal ones. */
  lemma KeptIsMinimal(groups: seq<Group>, redundant: seq<bool>, g: Group)
    requires |redundant| == |groups| && SortedBy(Smaller, groups)
    requires forall j :: 0 <= j < |groups| ==> (redundant[j] <==> Covered(groups, |groups|, j))
    ensures g in Kept(groups, redundant, |groups|) <==> Minimal(groups, g)
  {
    KeptMembers(groups, redundant, |groups|);
    if g in Kept(groups, redundant, |groups|) {
      var j :| 0 <= j < |groups| && !redundant[j] && groups[j] == g;
      forall h | h in groups && h <= g ensures h == g {
        var k :| 0 <= k < |groups| && groups[k] == h;
        SmallerSubset(h, g);
        assert Smaller(groups[k], groups[j]) ==> k < j;
      }
    }
    if Minimal(groups, g) {
      var j := FirstIndex(groups, g);
      assert forall k :: 0 <= k < j && groups[k] <= g ==> groups[k] in groups && groups[k] != g;
    }
  }

  lemma FirstIndex(groups: seq<Group>, g: Group) returns (j: nat)
    requires g in groups
    ensures j < |groups| && groups[j] == g && forall k :: 0 <= k < j ==> groups[k] != g
  {
    j := 0;
    while groups[j] != g
      invariant j < |groups| && g in groups[j..]
      invariant forall k :: 0 <= k < j ==> groups[k] != g
      decreases |groups| - j
    {
      j := j + 1;
    }
  }

  /** What simplifying makes of a list of groups: its minimal groups, in order. There is exactly one such list. */
  ghost predicate Simplified(groups: seq<Group>, r: seq<Group>) {
    Canonical(r) && forall g :: g in r <==> Minimal(groups, g)
  }

  method Simplify(groups: seq<Group>) returns (conditions: seq<Group>)
    ensures Simplified(groups, conditions)
  {
    conditions := groups;
    if |conditions| <= 1 {
      return;
    }
    conditions := Sort(conditions, Smaller);
    ghost var bySize := conditions;
    var redundant := MarkRedundant(conditions);
    conditions := Compact(conditions, redundant);
    ghost var kept := conditions;
    SetLessIsWeakOrder();
    conditions := Sort(conditions, SetLess);
    SimplifyCorrect(groups, bySize, redundant, kept, conditions);
  }

  lemma SimplifyCorrect(groups: seq<Group>, bySize: seq<Group>, redundant: seq<bool>, kept: seq<Group>, result: seq<Group>)
    requires multiset(bySize) == multiset(groups) && SortedBy(Smaller, bySize)
    requires |redundant| == |bySize| && kept == Kept(bySize, redundant, |bySize|)
    requires forall j :: 0 <= j < |bySize| ==> (redundant[j] <==> Covered(bySize, |bySize|, j))
    requires multiset(result) == multiset(kept) && SortedBy(SetLess, result)
    ensures Simplified(groups, result)
  {
    hide Kept, Covered, SetLess, Smaller;
    forall g ensures g in result <==> Minimal(groups, g) {
      SameMembers(bySize, groups, g);
      SameMembers(result, kept, g);
      KeptIsMinimal(bySize, redundant, g);
      assert Minimal(bySize, g) <==> Minimal(groups, g) by {
        forall h ensures h in bySize <==> h in groups { SameMembers(bySize, groups, h); }
      }
    }
    KeptDistinct(bySize, redundant, |bySize|);
    DistinctPermutation(kept, result);
    forall i, j | 0 <= i < j < |result| ensures SetLess(result[i], result[j]) {
      SetOrder(result[i], result[j]);
    }
    forall i, j | 0 <= i < |result| && 0 <= j < |result| && i != j ensures !(result[i] <= result[j]) {
      assert result[i] in result && result[j] in result;
      assert Minimal(groups, result[i]) && Minimal(groups, result[j]);
    }
  }

  lemma SameMembers<T>(a: seq<T>, b: seq<T>, x: T)
    requires multiset(a) == multiset(b)
    ensures x in a <==> x in b
  {
    assert x in a <==> x in multiset(a);
    assert x in b <==> x in multiset(b);
  }

  /** A permutation of a list without duplicates has none. */
  lemma DistinctPermutation(a: seq<Group>, b: seq<Group>)
    requires multiset(a) == multiset(b) && Distinct(a)
    ensures Distinct(b)
  {
    forall i, j | 0 <= i < j < |b| ensures b[i] != b[j] {
      if b[i] == b[j] {
        Twice(b, i, j);
        AtMostOnce(a, b[i]);
      }
    }
  }

  lemma Twice(b: seq<Group>, i: nat, j: nat)
    requires i < j < |b| && b[i] == b[j]
    ensures multiset(b)[b[i]] >= 2
  {
    assert b == b[..i] + [b[i]] + b[i + 1..j] + [b[j]] + b[j + 1..];
  }

  lemma {:induction false} AtMostOnce(a: seq<Group>, g: Group)
    requires Distinct(a)
    ensures multiset(a)[g] <= 1
  {
    if a != [] {
      var init := a[..|a| - 1];
      assert a == init + [a[|a| - 1]];
      AtMostOnce(init, g);
      if g == a[|a| - 1] {
        assert g !in init;
      }
    }
  }
}
