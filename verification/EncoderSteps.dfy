/** What one value tells the layer encoder: which node it belongs to and whether that node is written. */
module EncoderSteps {
  import opened Bits
  import opened BranchFactors
  import opened IntSets
  import opened SparseTree
  import opened FilledNodes

  /** `prior` and `cp` are neighbours in S (-1: cp is the first). */
  ghost predicate NextValue(S: set<nat>, prior: int, cp: nat) {
    -1 <= prior < cp && cp in S && forall y :: prior < y < cp ==> y !in S
  }

  /** Of the nodes `qs` with exponent e, the first n do not lie after `prior`, and the others do. */
  ghost predicate Between(qs: seq<nat>, e: nat, n: nat, prior: int) {
    && n <= |qs| && -1 <= prior
    && (n > 0 ==> prior >= 0 && qs[n - 1] <= Shr(prior, e))
    && (n < |qs| && prior >= 0 ==> Shr(prior, e) < qs[n])
  }

  /** If the node of the next value is written and is not the current one, it is the next in the queue. */
  lemma NextLive(S: set<nat>, bf: BranchFactor, top: nat, h: nat, n: nat, prior: int, cp: nat)
    requires Covers(S, bf, top) && 0 < h <= top && NextValue(S, prior, cp)
    requires Between(Layer(S, bf, top, h), bf.Exponent(h), n, prior)
    requires Live(S, bf, top, h, Shr(cp, bf.Exponent(h)))
    requires n > 0 ==> Layer(S, bf, top, h)[n - 1] < Shr(cp, bf.Exponent(h))
    ensures n < |Layer(S, bf, top, h)| && Layer(S, bf, top, h)[n] == Shr(cp, bf.Exponent(h))
  {
    var qs, e := Layer(S, bf, top, h), bf.Exponent(h);
    LayerIsLive(S, bf, top, h);
    var i :| 0 <= i < |qs| && qs[i] == Shr(cp, e);
    assert n <= i;
    if n < i {
      var y := NodeHasValue(S, bf, top, h, n);
      if cp <= y { ShrMonotonic(cp, y, e); }
      ShrMonotonic(y, prior, e);
    }
  }

  /** A value in a node that is not written lies before the next node in the queue, if those before it do. */
  lemma NotLiveBefore(S: set<nat>, bf: BranchFactor, top: nat, h: nat, n: nat, x: nat)
    requires Covers(S, bf, top) && 0 < h <= top && n < |Layer(S, bf, top, h)|
    requires x in S && !Live(S, bf, top, h, Shr(x, bf.Exponent(h)))
    requires forall y :: y in S && y < x ==> Shr(y, bf.Exponent(h)) < Layer(S, bf, top, h)[n]
    ensures Shr(x, bf.Exponent(h)) < Layer(S, bf, top, h)[n]
  {
    hide Shr, Layer, Covers, BranchFactor.Exponent;
    var e := bf.Exponent(h);
    var y := NodeHasValue(S, bf, top, h, n);
    if x <= y { ShrMonotonic(x, y, e); }
  }

  lemma NodeHasValue(S: set<nat>, bf: BranchFactor, top: nat, h: nat, n: nat) returns (y: nat)
    requires Covers(S, bf, top) && 0 < h <= top && n < |Layer(S, bf, top, h)|
    ensures y in S && Shr(y, bf.Exponent(h)) == Layer(S, bf, top, h)[n]
    ensures Live(S, bf, top, h, Layer(S, bf, top, h)[n])
  {
    var q := Layer(S, bf, top, h)[n];
    assert Live(S, bf, top, h, q) by {
      LayerIsLive(S, bf, top, h);
      assert q in Layer(S, bf, top, h);
    }
    y :| y in S && Shr(y, bf.Exponent(h)) == q;
  }

  /** After the last value every node has been written. */
  lemma AllDone(S: set<nat>, bf: BranchFactor, top: nat, h: nat, n: nat, prior: nat)
    requires Covers(S, bf, top) && 0 < h <= top
    requires Between(Layer(S, bf, top, h), bf.Exponent(h), n, prior)
    requires forall y :: y in S ==> y <= prior
    ensures n == |Layer(S, bf, top, h)|
  {
    if n < |Layer(S, bf, top, h)| {
      var y := NodeHasValue(S, bf, top, h, n);
      ShrMonotonic(y, prior, bf.Exponent(h));
    }
  }

  // ---------- classification by the table of filled levels ----------

  /** The table decides whether the node of `layer` above a value is filled. */
  lemma FilledByLevel(S: set<nat>, bf: BranchFactor, height: nat, levels: map<nat, nat>, layer: nat, cp: nat)
    requires height >= 2 && FilledLevels(S, bf, height, levels) && layer + 2 <= height
    ensures var twig := Shr(cp, bf.Exponent(2));
            Filled(S, bf.Exponent(height - layer), Shr(cp, bf.Exponent(height - layer)))
            <==> twig in levels && levels[twig] <= layer
  {
    var twig := Shr(cp, bf.Exponent(2));
    NodeOfTwig(bf, height - layer, cp);
    if FilledAt(S, bf, height, layer, twig) {
      FilledBelow(S, bf, height, layer, height - 2, twig);
    }
    if twig in levels && levels[twig] <= layer {
      FilledBelow(S, bf, height, levels[twig], layer, twig);
    }
  }

  lemma NodeOfTwig(bf: BranchFactor, h: nat, x: nat)
    requires h >= 2
    ensures Shr(Shr(x, bf.Exponent(2)), bf.Exponent(h - 2)) == Shr(x, bf.Exponent(h))
    ensures bf.Exponent(h) == bf.Exponent(2) + bf.Exponent(h - 2)
  {
    ExponentSum(bf, h - 2);
    ShrShr(x, bf.Exponent(2), bf.Exponent(h - 2));
  }

  lemma {:induction false} ExponentSum(bf: BranchFactor, n: nat)
    ensures bf.Exponent(n + 2) == bf.Exponent(2) + bf.Exponent(n)
  {
    if n > 0 {
      ExponentSum(bf, n - 1);
    }
  }

  /** OverrideIfFilled: what the table says about a value and its node in a layer. */
  lemma Classify(S: set<nat>, bf: BranchFactor, height: nat, levels: map<nat, nat>, layer: nat, cp: nat)
    requires FilledLevels(S, bf, height, levels) && layer < height && cp in S
    ensures var twig, h := Shr(cp, bf.Exponent(2)), height - layer;
            var q := Shr(cp, bf.Exponent(h));
            && (Live(S, bf, height, h, q) <==> !(twig in levels && levels[twig] < layer))
            && (ZeroCoded(S, bf, h, q) <==> h >= 2 && twig in levels && levels[twig] <= layer)
  {
    var h := height - layer;
    var q := Shr(cp, bf.Exponent(h));
    assert Has(S, bf.Exponent(h), q);
    if height >= 2 {
      if layer + 2 <= height {
        FilledByLevel(S, bf, height, levels, layer, cp);
      }
      if layer > 0 {
        FilledByLevel(S, bf, height, levels, layer - 1, cp);
        ShrShr(cp, bf.Exponent(h), bf.Log2());
        assert bf.Exponent(h + 1) == bf.Log2() + bf.Exponent(h);
      }
    }
  }

  // ---------- nodes and bits ----------

  lemma {:induction false} ShlAdd(a: nat, b: nat, n: nat)
    ensures Shl(a + b, n) == Shl(a, n) + Shl(b, n)
  {
    if n > 0 {
      ShlAdd(a, b, n - 1);
    }
  }

  /** The bit of a node that a value sets, and the base of the child it stands for. */
  lemma BitIndex(bf: BranchFactor, h: nat, q: nat, cp: nat)
    requires h > 0 && Shr(cp, bf.Exponent(h)) == q
    ensures Shl(q, bf.Exponent(h)) <= cp
    ensures var c := Shr(cp, bf.Exponent(h - 1));
            && bf.FirstChild(q) <= c < bf.FirstChild(q) + bf.NodeSize()
            && Shr(cp - Shl(q, bf.Exponent(h)), bf.Exponent(h - 1)) == c - bf.FirstChild(q)
            && BitOr(Shl(q, bf.Exponent(h)), Shl(c - bf.FirstChild(q), bf.Exponent(h - 1))) == Shl(c, bf.Exponent(h - 1))
  {
    hide Shr, BitOr, Pow2;
    var e, v, f := bf.Exponent(h), bf.Exponent(h - 1), bf.FirstChild(q);
    var c := Shr(cp, v);
    ChildBlock(bf, h, cp);
    ChildIndex(bf, q, c);
    var i := c - f;
    assert Shl(q, e) == Shl(f, v) by {
      ShlShl(q, bf.Log2(), v);
    }
    ShlAdd(f, i, v);
    ShrRange(cp, v, c);
    ShrRange(cp - Shl(f, v), v, i);
    assert Shl(i, v) < Pow2(e) by {
      ShrRange(Shl(c, v), v, c);
      ChildBlock(bf, h, Shl(c, v));
      ShrRange(Shl(c, v), e, q);
    }
    OrDisjoint(Shl(i, v), q, e);
  }

  ghost predicate NoneHas(S: set<nat>, e: nat, lo: nat, hi: nat) {
    forall c :: lo <= c < hi ==> !Has(S, e, c)
  }

  /** Children without values add nothing. */
  lemma {:induction false} NoChildrenBetween(S: set<nat>, e: nat, q: nat, i: nat, j: nat)
    requires i <= j && NoneHas(S, e, q + i, q + j)
    ensures MaskUpTo(S, e, q, j) == MaskUpTo(S, e, q, i)
    ensures ChildrenUpTo(S, e, q, j) == ChildrenUpTo(S, e, q, i)
    decreases j
  {
    if i < j {
      NoChildrenBetween(S, e, q, i, j - 1);
      assert !Has(S, e, q + j - 1);
    }
  }

  lemma NothingBetween(S: set<nat>, e: nat, prior: int, cp: nat, from: nat)
    requires -1 <= prior < cp && forall y :: prior < y < cp ==> y !in S
    requires forall y :: y in S && y <= prior ==> Shr(y, e) < from
    ensures NoneHas(S, e, from, Shr(cp, e))
  {
    forall c | from <= c < Shr(cp, e) ensures !Has(S, e, c) {
      if Has(S, e, c) {
        var y :| y in S && Shr(y, e) == c;
        if cp <= y { ShrMonotonic(cp, y, e); }
      }
    }
  }

  // ---------- skipping filled nodes of earlier layers ----------

  /** The twig is the first one of the topmost filled node above it. */
  ghost predicate StartsFilledNode(bf: BranchFactor, height: nat, levels: map<nat, nat>, twig: nat)
    requires twig in levels && levels[twig] + 2 <= height
  {
    var e := bf.Exponent(height - levels[twig] - 2);
    Shl(Shr(twig, e), e) == twig
  }

  lemma {:induction false} ShrShl(x: nat, n: nat)
    ensures Shr(Shl(x, n), n) == x
  {
    if n > 0 {
      ShrShl(x, n - 1);
    }
  }

  /** A value that does not start a block is in the same block as the one before it. */
  lemma SameBlock(y: nat, e: nat)
    ensures Shl(Shr(y, e), e) != y ==> y > 0 && Shr(y - 1, e) == Shr(y, e)
  {
    ShrRange(y, e, Shr(y, e));
    if y > 0 {
      ShrRange(y - 1, e, Shr(y, e));
    }
  }

  lemma CoarserBlock(x: nat, y: nat, a: nat, b: nat)
    requires a <= b && Shr(x, a) == Shr(y, a)
    ensures Shr(x, b) == Shr(y, b)
  {
    ShrShr(x, a, b - a);
    ShrShr(y, a, b - a);
  }

  lemma {:induction false} ExponentMonotonic(bf: BranchFactor, a: nat, b: nat)
    requires a <= b
    ensures bf.Exponent(a) <= bf.Exponent(b)
    decreases b
  {
    if a < b {
      ExponentMonotonic(bf, a, b - 1);
    }
  }

  /** Twigs of one filled node that is topmost for the first of them share its level. */
  lemma SameLevel(S: set<nat>, bf: BranchFactor, height: nat, levels: map<nat, nat>, twig: nat, other: nat)
    requires height >= 2 && FilledLevels(S, bf, height, levels) && twig in levels
    requires Shr(twig, bf.Exponent(height - levels[twig] - 2)) == Shr(other, bf.Exponent(height - levels[twig] - 2))
    ensures other in levels && levels[other] == levels[twig]
  {
    var l := levels[twig];
    assert FilledAt(S, bf, height, l, other);
    FilledBelow(S, bf, height, l, height - 2, other);
    assert other in levels;
    var m := levels[other];
    if m < l {
      ExponentMonotonic(bf, height - l - 2, height - m - 2);
      CoarserBlock(twig, other, bf.Exponent(height - l - 2), bf.Exponent(height - m - 2));
      SameNode(S, bf, height, m, twig, other);
    }
  }

  lemma SameNode(S: set<nat>, bf: BranchFactor, height: nat, layer: nat, a: nat, b: nat)
    requires layer + 2 <= height
    requires Shr(a, bf.Exponent(height - layer - 2)) == Shr(b, bf.Exponent(height - layer - 2))
    ensures FilledAt(S, bf, height, layer, a) <==> FilledAt(S, bf, height, layer, b)
  {
  }

  /** What lies right after a topmost filled node, if it is filled at all, starts the next topmost filled node. */
  lemma NextStarts(S: set<nat>, bf: BranchFactor, height: nat, levels: map<nat, nat>, twig: nat, next: nat)
    requires height >= 2 && FilledLevels(S, bf, height, levels) && twig in levels
    requires StartsFilledNode(bf, height, levels, twig)
    requires next == twig + Pow2(bf.Exponent(height - levels[twig] - 2)) && next in levels
    ensures StartsFilledNode(bf, height, levels, next)
  {
    var l, m := levels[twig], levels[next];
    var e, e' := bf.Exponent(height - l - 2), bf.Exponent(height - m - 2);
    var p := Shr(twig, e);
    ShrRange(next - 1, e, p);
    ShrRange(next, e, p + 1);
    SameLevel(S, bf, height, levels, twig, next - 1);
    SameBlock(next, e');
    if Shr(next - 1, e') == Shr(next, e') {
      assert FilledAt(S, bf, height, m, next - 1);
      if m >= l {
        ExponentMonotonic(bf, height - m - 2, height - l - 2);
        CoarserBlock(next - 1, next, e', e);
      }
    }
  }

  /** The values from `lo` up to `hi` are in S, but in nodes that this layer does not write. */
  ghost predicate NotWritten(S: set<nat>, bf: BranchFactor, top: nat, h: nat, lo: nat, hi: nat) {
    forall x: nat :: lo <= x < hi ==> x in S && !Live(S, bf, top, h, Shr(x, bf.Exponent(h)))
  }

  lemma FilledNotWritten(S: set<nat>, bf: BranchFactor, height: nat, levels: map<nat, nat>, layer: nat, twig: nat, next: nat)
    requires height >= 2 && FilledLevels(S, bf, height, levels) && twig in levels && levels[twig] < layer < height
    requires StartsFilledNode(bf, height, levels, twig)
    requires next == twig + Pow2(bf.Exponent(height - levels[twig] - 2))
    requires forall x :: x in S ==> x < U32_LIMIT - 1
    ensures NotWritten(S, bf, height, height - layer, Shl(twig, bf.Exponent(2)), Shl(next, bf.Exponent(2)))
    ensures Shl(twig, bf.Exponent(2)) < Shl(next, bf.Exponent(2)) < U32_LIMIT
  {
    hide Shr, Shl, Pow2, Live, Covers, BranchFactor.Exponent;
    var l := levels[twig];
    var p := Shr(twig, bf.Exponent(height - l - 2));
    FilledNodeRange(S, bf, height, l, p);
    var h, lo, hi := height - layer, Shl(twig, bf.Exponent(2)), Shl(next, bf.Exponent(2));
    assert hi == lo + Pow2(bf.Exponent(height - l)) && lo == Shl(p, bf.Exponent(height - l));
    forall x: nat | lo <= x < hi ensures x in S && !Live(S, bf, height, h, Shr(x, bf.Exponent(h))) {
      ShrRange(x, bf.Exponent(height - l), p);
      FilledByLevel(S, bf, height, levels, l, x);
      Classify(S, bf, height, levels, layer, x);
    }
    assert NotWritten(S, bf, height, h, lo, hi);
  }

  /** The values of a filled node, in terms of its twigs. */
  lemma FilledNodeRange(S: set<nat>, bf: BranchFactor, height: nat, layer: nat, p: nat)
    requires layer + 2 <= height && Filled(S, bf.Exponent(height - layer), p)
    requires forall x :: x in S ==> x < U32_LIMIT - 1
    ensures var e, E := bf.Exponent(height - layer - 2), bf.Exponent(height - layer);
            && Shl(Shl(p, e), bf.Exponent(2)) == Shl(p, E)
            && Shl(Shl(p, e) + Pow2(e), bf.Exponent(2)) == Shl(p, E) + Pow2(E) < U32_LIMIT
  {
    var e, E := bf.Exponent(height - layer - 2), bf.Exponent(height - layer);
    ExponentSum(bf, height - layer - 2);
    ShlGrows(p, e);
    ShlGrows(p, E);
    ShlShl(p, e, bf.Exponent(2));
    ShlShl(p + 1, e, bf.Exponent(2));
    FilledBelowLimit(S, E, p);
  }

  /** The first value seen of a topmost filled node is its first value, when the value before it is in a written node. */
  lemma StartsWithFirst(S: set<nat>, bf: BranchFactor, height: nat, levels: map<nat, nat>, layer: nat, prior: int, cp: nat)
    requires height >= 2 && FilledLevels(S, bf, height, levels) && layer < height && NextValue(S, prior, cp)
    requires Shr(cp, bf.Exponent(2)) in levels && levels[Shr(cp, bf.Exponent(2))] < layer
    requires prior >= 0 ==> prior in S && Live(S, bf, height, height - layer, Shr(prior, bf.Exponent(height - layer)))
    ensures StartsFilledNode(bf, height, levels, Shr(cp, bf.Exponent(2)))
    ensures Shl(Shr(cp, bf.Exponent(2)), bf.Exponent(2)) <= cp
  {
    var twig := Shr(cp, bf.Exponent(2));
    var l := levels[twig];
    var e, E := bf.Exponent(height - l - 2), bf.Exponent(height - l);
    var p := Shr(twig, e);
    ShrRange(cp, bf.Exponent(2), twig);
    NodeOfTwig(bf, height - l, cp);
    var first := Shl(p, E);
    ShrRange(cp, E, p);
    ShrRange(first, E, p);
    assert first in S;
    if first < cp {
      assert first <= prior;
      ShrRange(prior, E, p);
      FilledByLevel(S, bf, height, levels, l, prior);
      Classify(S, bf, height, levels, layer, prior);
    } else {
      ShlShl(p, e, bf.Exponent(2));
      ShrShl(Shl(p, e), bf.Exponent(2));
    }
  }

  /** Values up to the end of a run that is not written lie before the next node in the queue. */
  lemma SkippedBefore(S: set<nat>, bf: BranchFactor, top: nat, h: nat, n: nat, prior: int, cp: nat, end: nat, x: nat)
    requires Covers(S, bf, top) && 0 < h <= top && n < |Layer(S, bf, top, h)| && NextValue(S, prior, cp)
    requires Between(Layer(S, bf, top, h), bf.Exponent(h), n, prior) && NotWritten(S, bf, top, h, cp, end)
    requires x in S && x < end
    ensures Shr(x, bf.Exponent(h)) < Layer(S, bf, top, h)[n]
  {
    var e, q := bf.Exponent(h), Layer(S, bf, top, h)[n];
    var y := NodeHasValue(S, bf, top, h, n);
    if x <= prior {
      ShrMonotonic(x, prior, e);
    } else {
      if y <= prior { ShrMonotonic(y, prior, e); }
      assert y >= end;
      ShrMonotonic(x, y, e);
    }
  }
}
