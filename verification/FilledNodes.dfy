/** Which nodes of the tree are completely filled: the scans over the sorted values and the bottom-up merge. */
module FilledNodes {
  import opened Bits
  import opened BranchFactors
  import opened IntSets
  import opened SparseTree

  // ---------- runs inside one aligned block ----------

  /** The s values up to x are in G and in one block; the run starts at the start of the block or after a gap. */
  ghost predicate Run(G: set<nat>, e: nat, x: nat, s: nat) {
    && 1 <= s <= x + 1
    && Shr(x + 1 - s, e) == Shr(x, e)
    && (forall y :: x + 1 - s <= y <= x ==> y in G)
    && (s == x + 1 || Shr(x - s, e) != Shr(x, e) || x - s !in G)
  }

  ghost predicate LastInBlock(e: nat, x: nat) {
    Shr(x + 1, e) != Shr(x, e)
  }

  /** `(x & mask) == mask` */
  lemma LastInBlockIsMask(e: nat, x: nat)
    ensures LowBits(x, e) == Pow2(e) - 1 <==> LastInBlock(e, x)
    ensures LastInBlock(e, x) ==> Shr(x + 1, e) == Shr(x, e) + 1
  {
    var q := Shr(x, e);
    LowBitsOf(x, e);
    ShrRange(x + 1, e, q);
    ShrRange(x + 1, e, q + 1);
    ShlGrows(q, e);
  }

  /** What the scans know after the value `prior` (-1: before the first value). */
  ghost predicate Tracks(G: set<nat>, e: nat, prior: int, seqLen: nat) {
    if prior < 0 || LastInBlock(e, prior) || prior !in G then seqLen == 0 else Run(G, e, prior, seqLen)
  }

  lemma ScanStep(G: set<nat>, e: nat, prior: int, seqLen: nat, x: nat)
    requires -1 <= prior < x && Tracks(G, e, prior, seqLen)
    requires x in G && forall y :: prior < y < x ==> y !in G
    ensures Run(G, e, x, if x == prior + 1 then seqLen + 1 else 1)
  {
    if x == prior + 1 && prior >= 0 {
      if LastInBlock(e, prior) || prior !in G {
        assert x - 1 == prior;
      } else {
        assert x + 1 - (seqLen + 1) == prior + 1 - seqLen;
        assert x - (seqLen + 1) == prior - seqLen;
      }
    }
  }

  /** At the end of a block the run has the size of the block exactly when the block is full. */
  lemma FullRun(G: set<nat>, e: nat, x: nat, s: nat)
    requires Run(G, e, x, s) && LastInBlock(e, x)
    ensures s == Pow2(e) <==> Filled(G, e, Shr(x, e))
    ensures s <= Pow2(e)
    ensures Pow2(e) <= x + 1 && Shr(x + 1 - Pow2(e), e) == Shr(x, e)
  {
    var n, q := Pow2(e), Shr(x, e);
    LastInBlockIsMask(e, x);
    ShrRange(x, e, q);
    ShrRange(x + 1, e, q + 1);
    assert x == Shl(q, e) + n - 1;
    ShrRange(x + 1 - s, e, q);
    ShrRange(x + 1 - n, e, q);
    if s == n {
      forall y: nat | Shr(y, e) == q ensures y in G {
        ShrRange(y, e, q);
      }
    }
    if s < n {
      ShrRange(x - s, e, q);
    }
  }

  // ---------- twigs ----------

  /** The filled twigs of S, in order. A twig is a node one level above the leaves. */
  ghost predicate AreFilledTwigs(S: set<nat>, bf: BranchFactor, twigs: seq<nat>) {
    && Ascending(twigs)
    && forall t: nat :: t in twigs <==> Filled(S, bf.Exponent(2), t)
  }

  /** The filled twigs that end at or before `prior`. */
  ghost predicate FilledTwigsUpTo(S: set<nat>, e: nat, prior: int, twigs: seq<nat>)
    requires prior >= -1
  {
    && Ascending(twigs)
    && forall t: nat :: t in twigs <==> Filled(S, e, t) && t < Shr(prior + 1, e)
  }

  method FindFilledTwigs(codepoints: seq<U32>, bf: BranchFactor) returns (filledTwigs: seq<nat>)
    requires Ascending(codepoints) && forall cp :: cp in codepoints ==> cp < U32_LIMIT - 1
    ensures AreFilledTwigs(ToSet(codepoints), bf, filledTwigs)
  {
    filledTwigs := [];
    var prevCp := U32_LIMIT - 2;
    var seqLen := 0;
    ghost var S, e, prior: int := ToSet(codepoints), bf.Exponent(2), -1;
    ShrOfZero(e);
    for i := 0 to |codepoints|
      invariant prior == (if i == 0 then -1 else codepoints[i - 1])
      invariant prevCp == if i == 0 then U32_LIMIT - 2 else prior
      invariant Tracks(S, e, prior, seqLen)
      invariant FilledTwigsUpTo(S, e, prior, filledTwigs)
    {
      var cp := codepoints[i];
      NextInScan(codepoints, i, prior);
      ScanStep(S, e, prior, seqLen, cp);
      if cp == prevCp + 1 {
        seqLen := seqLen + 1;
      } else {
        seqLen := 1;
      }
      LastInBlockIsMask(e, cp);
      FilledTwigsStep(S, e, prior, cp, filledTwigs);
      var lastValueInTwig := LowBits(cp, bf.TwigSizeLog2()) == bf.TwigSize() - 1;
      if lastValueInTwig {
        FullRun(S, e, cp, seqLen);
        if seqLen == bf.TwigSize() {
          filledTwigs := filledTwigs + [Shr(cp, bf.TwigSizeLog2())];
        }
        seqLen := 0;
      }
      prevCp := cp;
      prior := cp;
    }
    AllTwigsSeen(S, e, prior);
  }

  /** No value of the set lies between one element and the next. */
  lemma NextInScan(xs: seq<nat>, i: nat, prior: int)
    requires Ascending(xs) && i < |xs| && prior == if i == 0 then -1 else xs[i - 1]
    ensures prior < xs[i] && xs[i] in ToSet(xs)
    ensures forall y :: prior < y < xs[i] ==> y !in ToSet(xs)
  {
  }

  /** Only a value at the end of a twig can complete one, and it completes its own. */
  lemma FilledTwigsStep(S: set<nat>, e: nat, prior: int, cp: nat, twigs: seq<nat>)
    requires -1 <= prior < cp && (forall y :: prior < y < cp ==> y !in S)
    requires FilledTwigsUpTo(S, e, prior, twigs)
    ensures !LastInBlock(e, cp) || !Filled(S, e, Shr(cp, e)) ==> FilledTwigsUpTo(S, e, cp, twigs)
    ensures LastInBlock(e, cp) && Filled(S, e, Shr(cp, e)) ==> FilledTwigsUpTo(S, e, cp, twigs + [Shr(cp, e)])
  {
    var q := Shr(cp, e);
    NoneBetween(S, e, prior, cp);
    assert forall t: nat :: t in twigs <==> Filled(S, e, t) && t < q;
    if LastInBlock(e, cp) && Filled(S, e, q) {
      AscendingConcat(twigs, [q]);
      assert forall t: nat :: t in twigs + [q] <==> t in twigs || t == q;
    }
  }

  /** A block that starts after `prior` and lies before x has no chance to be filled. */
  lemma NoneBetween(G: set<nat>, e: nat, prior: int, x: nat)
    requires -1 <= prior < x && (forall y :: prior < y < x ==> y !in G)
    ensures Shr(prior + 1, e) <= Shr(x, e)
    ensures Shr(x + 1, e) == if LastInBlock(e, x) then Shr(x, e) + 1 else Shr(x, e)
    ensures forall t: nat :: Shr(prior + 1, e) <= t < Shr(x, e) ==> !Filled(G, e, t)
  {
    ShrMonotonic(prior + 1, x, e);
    LastInBlockIsMask(e, x);
    forall t: nat | Shr(prior + 1, e) <= t < Shr(x, e) ensures !Filled(G, e, t) {
      BlockHasGap(G, e, prior, x, t);
    }
  }

  lemma BlockHasGap(S: set<nat>, e: nat, prior: int, cp: nat, t: nat)
    requires -1 <= prior < cp && (forall y :: prior < y < cp ==> y !in S)
    requires Shr(prior + 1, e) <= t < Shr(cp, e)
    ensures !Filled(S, e, t)
  {
    var n := Pow2(e);
    var y := Shl(t, e) + n - 1;
    ShrRange(y, e, t);
    if y <= prior { ShrMonotonic(y, prior + 1, e); ShrRange(prior + 1, e, t); }
    if cp <= y { ShrMonotonic(cp, y, e); }
  }

  lemma AllTwigsSeen(S: set<nat>, e: nat, prior: int)
    requires -1 <= prior && forall x :: x in S ==> x <= prior
    ensures forall t: nat :: Filled(S, e, t) ==> t < Shr(prior + 1, e)
  {
    forall t: nat | Filled(S, e, t) ensures t < Shr(prior + 1, e) {
      var n := Pow2(e);
      var y := Shl(t, e) + n - 1;
      ShrRange(y, e, t);
      assert y in S;
      ShrMonotonic(y + 1, prior + 1, e);
      ShrRange(y + 1, e, t + 1);
    }
  }

  // ---------- filled nodes above the twigs ----------

  /** The node of `layer` (0 is the root) above a twig is filled. */
  ghost predicate FilledAt(S: set<nat>, bf: BranchFactor, height: nat, layer: nat, twig: nat)
    requires layer + 2 <= height
  {
    Filled(S, bf.Exponent(height - layer), Shr(twig, bf.Exponent(height - layer - 2)))
  }

  lemma FilledBelow(S: set<nat>, bf: BranchFactor, height: nat, layer: nat, lower: nat, twig: nat)
    requires layer <= lower && lower + 2 <= height && FilledAt(S, bf, height, layer, twig)
    ensures FilledAt(S, bf, height, lower, twig)
    decreases lower
  {
    if layer < lower {
      FilledBelow(S, bf, height, layer, lower - 1, twig);
      var c := Shr(twig, bf.Exponent(height - lower - 2));
      ShrShr(twig, bf.Exponent(height - lower - 2), bf.Log2());
      assert bf.Exponent(height - (lower - 1) - 2) == bf.Exponent(height - lower - 2) + bf.Log2();
      FilledChild(S, bf, height - (lower - 1), c);
    }
  }

  /** The result: for each filled twig the topmost layer whose node above it is filled. */
  ghost predicate FilledLevels(S: set<nat>, bf: BranchFactor, height: nat, levels: map<nat, nat>) {
    if height < 2 then levels == map[]
    else
      && (forall t: nat :: t in levels <==> Filled(S, bf.Exponent(2), t))
      && forall t :: t in levels ==>
           && levels[t] + 2 <= height
           && FilledAt(S, bf, height, levels[t], t)
           && forall l: nat :: l < levels[t] ==> !FilledAt(S, bf, height, l, t)
  }

  /** The same, with only the layers from `top` down looked at. */
  ghost predicate LevelsDownTo(S: set<nat>, bf: BranchFactor, height: nat, levels: map<nat, nat>, top: nat)
    requires top + 2 <= height
  {
    && (forall t: nat :: t in levels <==> Filled(S, bf.Exponent(2), t))
    && forall t :: t in levels ==>
         && top <= levels[t] && levels[t] + 2 <= height
         && FilledAt(S, bf, height, levels[t], t)
         && (levels[t] > top ==> !FilledAt(S, bf, height, levels[t] - 1, t))
  }

  ghost function AtLevel(levels: map<nat, nat>, level: nat): set<nat> {
    set t | t in levels && levels[t] == level
  }

  /** A node of the next layer up is filled when all its twigs have been merged into the layer below it. */
  lemma MergeIsFilled(S: set<nat>, bf: BranchFactor, height: nat, levels: map<nat, nat>, layer: nat, p: nat)
    requires layer + 3 <= height && LevelsDownTo(S, bf, height, levels, layer + 1)
    ensures Filled(AtLevel(levels, layer + 1), bf.Exponent(height - layer - 2), p)
            <==> Filled(S, bf.Exponent(height - layer), p)
  {
    var G, e, h := AtLevel(levels, layer + 1), bf.Exponent(height - layer - 2), height - layer;
    assert bf.Exponent(h) == bf.Exponent(2) + e by {
      bf.ExponentIsProduct(h);
      bf.ExponentIsProduct(2);
      bf.ExponentIsProduct(h - 2);
    }
    if Filled(G, e, p) {
      forall x: nat | Shr(x, bf.Exponent(h)) == p ensures x in S {
        ShrShr(x, bf.Exponent(2), e);
        assert Shr(x, bf.Exponent(2)) in G;
      }
    }
    if Filled(S, bf.Exponent(h), p) {
      forall t: nat | Shr(t, e) == p ensures t in G {
        assert FilledAt(S, bf, height, layer, t);
        FilledBelow(S, bf, height, layer, height - 2, t);
        assert t in levels;
        if levels[t] > layer + 1 {
          FilledBelow(S, bf, height, layer, levels[t] - 1, t);
        }
      }
    }
  }

  /** After the layer's scan up to `prior`: the twigs of the full blocks seen have moved up one layer. */
  ghost predicate MergedUpTo(levels: map<nat, nat>, levels': map<nat, nat>, layer: nat, e: nat, prior: int)
    requires prior >= -1
  {
    && levels'.Keys == levels.Keys
    && forall t :: t in levels ==>
         levels'[t] == if Shr(t, e) < Shr(prior + 1, e) && Filled(AtLevel(levels, layer + 1), e, Shr(t, e))
                       then layer else levels[t]
  }

  ghost predicate CountsMerged(G: set<nat>, e: nat, prior: int, merged: set<nat>)
    requires prior >= -1
  {
    forall p: nat :: p in merged <==> Filled(G, e, p) && p < Shr(prior + 1, e)
  }

  /** The table has an entry for each of the twigs, which are in order and fit into 32 bits. */
  ghost predicate IsTableFor(twigs: seq<nat>, levels: map<nat, nat>) {
    Ascending(twigs) && levels.Keys == ToSet(twigs) && forall t :: t in twigs ==> t < U32_LIMIT - 1
  }

  /** The blocks whose twigs have all been merged into the layer below, and the table with their twigs moved up. */
  ghost predicate IsMerged(levels: map<nat, nat>, levels': map<nat, nat>, layer: nat, e: nat, merged: set<nat>) {
    && levels'.Keys == levels.Keys
    && (forall t :: t in levels ==>
          levels'[t] == if Filled(AtLevel(levels, layer + 1), e, Shr(t, e)) then layer else levels[t])
    && forall p: nat :: p in merged <==> Filled(AtLevel(levels, layer + 1), e, p)
  }

  /** One pass of the merge loop: every node of `layer` all of whose children are filled takes over their twigs. */
  method MergeLayer(twigs: seq<nat>, levels: map<nat, nat>, layer: nat, nodeSizeLog2: nat)
    returns (levels': map<nat, nat>, numMergedNodes: nat, ghost merged: set<nat>)
    requires IsTableFor(twigs, levels)
    ensures IsMerged(levels, levels', layer, nodeSizeLog2, merged) && numMergedNodes == |merged|
  {
    hide Merging, IsMerged, AtLevel;
    levels', numMergedNodes, merged := levels, 0, {};
    var prevTwig := U32_LIMIT - 2;
    var seqLen := 0;
    ghost var prior: int := -1;
    MergeStart(levels, layer, nodeSizeLog2);
    for i := 0 to |twigs|
      invariant prior == (if i == 0 then -1 else twigs[i - 1])
      invariant prevTwig == if i == 0 then U32_LIMIT - 2 else prior
      invariant Merging(levels, levels', layer, nodeSizeLog2, prior, seqLen, numMergedNodes, merged)
    {
      NextTwig(twigs, levels, i, prior);
      levels', seqLen, numMergedNodes, merged :=
        MergeTwig(twigs[i], prevTwig, levels, levels', layer, seqLen, nodeSizeLog2, prior, numMergedNodes, merged);
      prevTwig := twigs[i];
      prior := twigs[i];
    }
    LastTwig(twigs, levels, prior);
    MergeDone(levels, levels', layer, nodeSizeLog2, prior, seqLen, numMergedNodes, merged);
  }

  lemma LastTwig(twigs: seq<nat>, levels: map<nat, nat>, prior: int)
    requires Ascending(twigs) && levels.Keys == ToSet(twigs)
    requires prior == if twigs == [] then -1 else twigs[|twigs| - 1]
    ensures forall t :: t in levels ==> t <= prior
  {
    forall t | t in levels ensures t <= prior {
      assert t in levels.Keys;
      assert t in twigs;
    }
  }

  /** Before the first twig nothing has been merged. */
  lemma MergeStart(levels: map<nat, nat>, layer: nat, e: nat)
    ensures Merging(levels, levels, layer, e, -1, 0, 0, {})
  {
    ShrOfZero(e);
  }

  lemma NextTwig(twigs: seq<nat>, levels: map<nat, nat>, i: nat, prior: int)
    requires Ascending(twigs) && levels.Keys == ToSet(twigs) && i < |twigs|
    requires prior == if i == 0 then -1 else twigs[i - 1]
    ensures prior < twigs[i] && twigs[i] in levels
    ensures forall y :: prior < y < twigs[i] ==> y !in levels
  {
    NextInScan(twigs, i, prior);
    assert twigs[i] in levels.Keys;
    forall y | prior < y < twigs[i] ensures y !in levels {
      assert y !in levels.Keys;
    }
  }

  lemma SequenceFills(G: set<nat>, e: nat, twig: nat, seqLen: nat)
    requires LastInBlock(e, twig) && if twig in G then Run(G, e, twig, seqLen) else seqLen == 0
    ensures seqLen == Pow2(e) <==> Filled(G, e, Shr(twig, e))
    ensures seqLen == Pow2(e) ==> seqLen <= twig + 1
  {
    if twig in G {
      FullRun(G, e, twig, seqLen);
    } else {
      assert !Filled(G, e, Shr(twig, e));
    }
  }

  lemma MergeDone(levels: map<nat, nat>, levels': map<nat, nat>, layer: nat, e: nat, prior: int, seqLen: nat, num: nat,
                  merged: set<nat>)
    requires -1 <= prior && forall t :: t in levels ==> t <= prior
    requires Merging(levels, levels', layer, e, prior, seqLen, num, merged)
    ensures IsMerged(levels, levels', layer, e, merged) && num == |merged|
  {
    AllTwigsSeen(AtLevel(levels, layer + 1), e, prior);
  }

  /** The state of the scan of one layer after the twig `prior`. */
  ghost predicate Merging(levels: map<nat, nat>, levels': map<nat, nat>, layer: nat, e: nat, prior: int, seqLen: nat,
                          numMergedNodes: nat, merged: set<nat>)
    requires prior >= -1
  {
    && Tracks(AtLevel(levels, layer + 1), e, prior, seqLen)
    && MergedUpTo(levels, levels', layer, e, prior)
    && CountsMerged(AtLevel(levels, layer + 1), e, prior, merged) && |merged| == numMergedNodes
  }

  method MergeTwig(twig: nat, prevTwig: nat, ghost levels: map<nat, nat>, levels': map<nat, nat>, layer: nat, seqLen: nat,
                   nodeSizeLog2: nat, ghost prior: int, numMergedNodes: nat, ghost merged: set<nat>)
    returns (next: map<nat, nat>, seqLen': nat, num: nat, ghost merged': set<nat>)
    requires -1 <= prior < twig < U32_LIMIT - 1 && prevTwig == if prior < 0 then U32_LIMIT - 2 else prior
    requires twig in levels && forall y :: prior < y < twig ==> y !in levels
    requires Merging(levels, levels', layer, nodeSizeLog2, prior, seqLen, numMergedNodes, merged)
    ensures Merging(levels, next, layer, nodeSizeLog2, twig, seqLen', num, merged')
  {
    seqLen' := CountRun(twig, prevTwig, levels, levels', layer, seqLen, nodeSizeLog2, prior);
    next, seqLen', num, merged' :=
      EndNode(twig, levels, levels', layer, seqLen', nodeSizeLog2, prior, numMergedNodes, merged);
  }

  /** Counts the twigs in a row that have been merged into the layer below. */
  method CountRun(twig: nat, prevTwig: nat, ghost levels: map<nat, nat>, levels': map<nat, nat>, layer: nat, seqLen: nat,
                  ghost e: nat, ghost prior: int)
    returns (seqLen': nat)
    requires -1 <= prior < twig < U32_LIMIT - 1 && prevTwig == if prior < 0 then U32_LIMIT - 2 else prior
    requires twig in levels && forall y :: prior < y < twig ==> y !in levels
    requires MergedUpTo(levels, levels', layer, e, prior) && Tracks(AtLevel(levels, layer + 1), e, prior, seqLen)
    ensures if twig in AtLevel(levels, layer + 1) then Run(AtLevel(levels, layer + 1), e, twig, seqLen') else seqLen' == 0
  {
    var targetLevel := layer + 1;
    NoneBetween(AtLevel(levels, targetLevel), e, prior, twig);
    var filledLevel := levels'[twig];
    assert filledLevel == levels[twig];
    if twig in AtLevel(levels, targetLevel) {
      ScanStep(AtLevel(levels, targetLevel), e, prior, seqLen, twig);
    }
    if twig == prevTwig + 1 && filledLevel == targetLevel {
      seqLen' := seqLen + 1;  // continue a good sequence
    } else if filledLevel == targetLevel {
      seqLen' := 1;  // start a possible new sequence
    } else {
      seqLen' := 0;  // can not be part of a sequence
    }
  }

  lemma FilledAreKeys(levels: map<nat, nat>, levels': map<nat, nat>, layer: nat, e: nat, prior: int, q: nat)
    requires prior >= -1 && MergedUpTo(levels, levels', layer, e, prior) && Filled(AtLevel(levels, layer + 1), e, q)
    ensures forall t: nat :: Shr(t, e) == q ==> t in levels'
  {
  }

  /** At the last twig of a node of the layer: merge the node if the sequence covers it. */
  method EndNode(twig: nat, ghost levels: map<nat, nat>, levels': map<nat, nat>, layer: nat, seqLen: nat, nodeSizeLog2: nat,
                 ghost prior: int, numMergedNodes: nat, ghost merged: set<nat>)
    returns (next: map<nat, nat>, seqLen': nat, num: nat, ghost merged': set<nat>)
    requires -1 <= prior < twig && twig in levels && forall y :: prior < y < twig ==> y !in levels
    requires MergedUpTo(levels, levels', layer, nodeSizeLog2, prior)
    requires CountsMerged(AtLevel(levels, layer + 1), nodeSizeLog2, prior, merged) && |merged| == numMergedNodes
    requires var G := AtLevel(levels, layer + 1);
             if twig in G then Run(G, nodeSizeLog2, twig, seqLen) else seqLen == 0
    ensures Tracks(AtLevel(levels, layer + 1), nodeSizeLog2, twig, seqLen')
    ensures MergedUpTo(levels, next, layer, nodeSizeLog2, twig)
    ensures CountsMerged(AtLevel(levels, layer + 1), nodeSizeLog2, twig, merged') && |merged'| == num
  {
    hide LowBits, Shl, Moved, MergedUpTo, CountsMerged, Filled;
    ghost var G, q := AtLevel(levels, layer + 1), Shr(twig, nodeSizeLog2);
    next, seqLen', num, merged' := levels', seqLen, numMergedNodes, merged;
    var nodeSize := Pow2(nodeSizeLog2);
    LastInBlockIsMask(nodeSizeLog2, twig);
    CountStep(G, nodeSizeLog2, prior, twig, merged);
    var lastValueInTwig := LowBits(twig, nodeSizeLog2) == nodeSize - 1;
    if lastValueInTwig {
      SequenceFills(G, nodeSizeLog2, twig, seqLen);
      if seqLen == nodeSize {
        FilledAreKeys(levels, levels', layer, nodeSizeLog2, prior, q);
        next := SetLevels(levels', twig + 1 - nodeSize, twig, layer, nodeSizeLog2);
        num := numMergedNodes + 1;
        merged' := merged + {q};
      }
      seqLen' := 0;
    }
    MergeStep(levels, levels', next, layer, nodeSizeLog2, prior, twig);
  }

  /** Moves the twigs of one full block up to `layer`. */
  method SetLevels(levels: map<nat, nat>, first: nat, last: nat, layer: nat, ghost e: nat) returns (levels': map<nat, nat>)
    requires LastInBlock(e, last) && last + 1 == first + Pow2(e)
    requires forall t: nat :: Shr(t, e) == Shr(last, e) ==> t in levels
    ensures levels'.Keys == levels.Keys
    ensures Moved(levels, levels', layer, e, Shr(last, e))
  {
    BlockBounds(e, first, last);
    levels' := levels;
    for i := first to last + 1
      invariant levels'.Keys == levels.Keys
      invariant forall t :: t in levels ==> levels'[t] == if first <= t < i then layer else levels[t]
    {
      assert first <= i <= last;
      levels' := levels'[i := layer];
    }
  }

  lemma BlockBounds(e: nat, first: nat, last: nat)
    requires LastInBlock(e, last) && last + 1 == first + Pow2(e)
    ensures forall t: nat :: Shr(t, e) == Shr(last, e) <==> first <= t <= last
  {
    var q, n := Shr(last, e), Pow2(e);
    var base := Shl(q, e);
    assert first == base by {
      LastInBlockIsMask(e, last);
      ShrRange(last, e, q);
      ShrRange(last + 1, e, q + 1);
    }
    forall t: nat ensures Shr(t, e) == q <==> base <= t < base + n {
      ShrRange(t, e, q);
    }
  }

  /** `to` has the twigs of block q moved to `layer` and is otherwise `from`. */
  ghost predicate Moved(from: map<nat, nat>, to: map<nat, nat>, layer: nat, e: nat, q: nat) {
    to.Keys == from.Keys && forall t :: t in from ==> to[t] == if Shr(t, e) == q then layer else from[t]
  }

  /** What the next twig changes: nothing, unless it completes its block. */
  lemma MergeStep(levels: map<nat, nat>, levels': map<nat, nat>, next: map<nat, nat>, layer: nat, e: nat,
                  prior: int, twig: nat)
    requires -1 <= prior < twig && (forall y :: prior < y < twig ==> y !in levels)
    requires MergedUpTo(levels, levels', layer, e, prior)
    requires var q := Shr(twig, e);
             if LastInBlock(e, twig) && Filled(AtLevel(levels, layer + 1), e, q)
             then Moved(levels', next, layer, e, q) else next == levels'
    ensures MergedUpTo(levels, next, layer, e, twig)
  {
    NoneBetween(AtLevel(levels, layer + 1), e, prior, twig);
  }

  lemma CountStep(G: set<nat>, e: nat, prior: int, twig: nat, merged: set<nat>)
    requires -1 <= prior < twig && (forall y :: prior < y < twig ==> y !in G)
    requires CountsMerged(G, e, prior, merged)
    ensures Shr(twig, e) !in merged
    ensures CountsMerged(G, e, twig,
                         if LastInBlock(e, twig) && Filled(G, e, Shr(twig, e)) then merged + {Shr(twig, e)} else merged)
  {
    var q := Shr(twig, e);
    NoneBetween(G, e, prior, twig);
    var merged' := if LastInBlock(e, twig) && Filled(G, e, q) then merged + {q} else merged;
    forall p: nat ensures p in merged' <==> Filled(G, e, p) && p < Shr(twig + 1, e) {
      FullBlocksUpTo(G, e, prior, twig, p);
    }
  }

  lemma FullBlocksUpTo(G: set<nat>, e: nat, prior: int, x: nat, p: nat)
    requires -1 <= prior < x && (forall y :: prior < y < x ==> y !in G)
    ensures Filled(G, e, p) && p < Shr(x + 1, e) <==>
            (Filled(G, e, p) && p < Shr(prior + 1, e)) || (p == Shr(x, e) && LastInBlock(e, x) && Filled(G, e, p))
  {
    var from, q, end := Shr(prior + 1, e), Shr(x, e), Shr(x + 1, e);
    assert from <= q && end == if LastInBlock(e, x) then q + 1 else q by {
      NoneBetween(G, e, prior, x);
    }
    if from <= p < q {
      BlockHasGap(G, e, prior, x, p);
    }
  }

  /** Before the merge every filled twig is at the twig layer. */
  lemma TwigLevels(S: set<nat>, bf: BranchFactor, height: nat, twigs: seq<nat>, levels: map<nat, nat>)
    requires height >= 2 && AreFilledTwigs(S, bf, twigs) && levels.Keys == ToSet(twigs)
    requires forall t :: t in levels ==> levels[t] == height - 2
    ensures Ascending(twigs)
    ensures LevelsDownTo(S, bf, height, levels, height - 2)
  {
    forall t: nat ensures t in levels <==> Filled(S, bf.Exponent(2), t) {
      assert t in levels <==> t in levels.Keys;
    }
    assert bf.Exponent(height - (height - 2) - 2) == 0;
  }

  lemma MergedKeys(twigs: seq<nat>, levels: map<nat, nat>, levels': map<nat, nat>, layer: nat, e: nat, merged: set<nat>)
    requires IsTableFor(twigs, levels) && IsMerged(levels, levels', layer, e, merged)
    ensures IsTableFor(twigs, levels')
  {
  }

  method TwigLayer(twigs: seq<nat>, layer: nat) returns (levels: map<nat, nat>)
    ensures levels.Keys == ToSet(twigs) && forall t :: t in levels ==> levels[t] == layer
  {
    levels := map[];
    for i := 0 to |twigs|
      invariant levels.Keys == ToSet(twigs[..i])
      invariant forall t :: t in levels ==> levels[t] == layer
    {
      assert twigs[..i + 1] == twigs[..i] + [twigs[i]];
      levels := levels[twigs[i] := layer];
    }
    assert twigs[..|twigs|] == twigs;
  }

  method FindFilledNodes(bf: BranchFactor, treeHeight: nat, filledTwigs: seq<nat>, ghost S: set<nat>)
    returns (filledLevels: map<nat, nat>)
    requires AreFilledTwigs(S, bf, filledTwigs)
    requires forall x :: x in S ==> x < U32_LIMIT - 1 && Shr(x, bf.Exponent(treeHeight)) == 0
    ensures FilledLevels(S, bf, treeHeight, filledLevels)
  {
    filledLevels := map[];
    if treeHeight < 2 || filledTwigs == [] {
      return;
    }
    filledLevels := TwigLayer(filledTwigs, treeHeight - 2);
    TwigsFit(S, bf, filledTwigs);
    TwigLevels(S, bf, treeHeight, filledTwigs, filledLevels);
    filledLevels := MergeLayers(bf, treeHeight, filledTwigs, filledLevels, S);
  }

  /** Works up the layers from the one above the twigs. */
  method MergeLayers(bf: BranchFactor, treeHeight: nat, filledTwigs: seq<nat>, levels: map<nat, nat>, ghost S: set<nat>)
    returns (filledLevels: map<nat, nat>)
    requires treeHeight >= 2 && IsTableFor(filledTwigs, levels)
    requires LevelsDownTo(S, bf, treeHeight, levels, treeHeight - 2)
    ensures FilledLevels(S, bf, treeHeight, filledLevels)
  {
    assert bf.Exponent(1) == bf.Log2();
    hide *;
    filledLevels := levels;
    var nodeSizeLog2 := bf.Log2();
    for layer := treeHeight - 2 downto 0
      invariant nodeSizeLog2 == bf.Exponent(treeHeight - layer - 1)
      invariant IsTableFor(filledTwigs, filledLevels)
      invariant LevelsDownTo(S, bf, treeHeight, filledLevels, layer)
    {
      var numMergedNodes;
      ghost var merged;
      ghost var before := filledLevels;
      filledLevels, numMergedNodes, merged := MergeLayer(filledTwigs, filledLevels, layer, nodeSizeLog2);
      MergedKeys(filledTwigs, before, filledLevels, layer, nodeSizeLog2, merged);
      MergedLayer(S, bf, treeHeight, before, filledLevels, layer, merged);
      if numMergedNodes < bf.NodeSize() {
        NoFurtherMerges(S, bf, treeHeight, filledLevels, layer, merged);
        break;  // no further merges are possible
      }
      nodeSizeLog2 := nodeSizeLog2 + bf.Log2();
      ExponentStep(bf, treeHeight - layer - 2);
    }
    AllLayersSeen(S, bf, treeHeight, filledLevels);
  }

  lemma ExponentStep(bf: BranchFactor, n: nat)
    ensures bf.Exponent(n + 1) == bf.Exponent(n) + bf.Log2()
  {
  }

  lemma TwigsFit(S: set<nat>, bf: BranchFactor, twigs: seq<nat>)
    requires AreFilledTwigs(S, bf, twigs) && forall x :: x in S ==> x < U32_LIMIT - 1
    ensures forall t :: t in twigs ==> t < U32_LIMIT - 1
  {
    forall t | t in twigs ensures t < U32_LIMIT - 1 {
      var e := bf.Exponent(2);
      var x := Shl(t, e);
      ShrRange(x, e, t);
      assert x in S;
      ShlGrows(t, e);
    }
  }

  /** The filled nodes with h levels left. */
  ghost predicate AreFilledNodes(S: set<nat>, bf: BranchFactor, h: nat, nodes: set<nat>) {
    forall p: nat :: p in nodes <==> Filled(S, bf.Exponent(h), p)
  }

  lemma MergedLayer(S: set<nat>, bf: BranchFactor, height: nat, levels: map<nat, nat>, levels': map<nat, nat>,
                    layer: nat, merged: set<nat>)
    requires layer + 3 <= height && LevelsDownTo(S, bf, height, levels, layer + 1)
    requires IsMerged(levels, levels', layer, bf.Exponent(height - layer - 2), merged)
    ensures LevelsDownTo(S, bf, height, levels', layer)
    ensures AreFilledNodes(S, bf, height - layer, merged)
  {
    hide Filled, Shr, Pow2;
    MergedNodes(S, bf, height, levels, levels', layer, merged);
    MergedKeepsKeys(levels, levels', layer, bf.Exponent(height - layer - 2), merged);
    hide IsMerged;
    forall t | t in levels'
      ensures layer <= levels'[t] && levels'[t] + 2 <= height && FilledAt(S, bf, height, levels'[t], t)
      ensures levels'[t] > layer ==> !FilledAt(S, bf, height, levels'[t] - 1, t)
    {
      MergedLevel(S, bf, height, levels, levels', layer, merged, t);
    }
  }

  lemma MergedKeepsKeys(levels: map<nat, nat>, levels': map<nat, nat>, layer: nat, e: nat, merged: set<nat>)
    requires IsMerged(levels, levels', layer, e, merged)
    ensures levels'.Keys == levels.Keys
  {
  }

  lemma MergedLevel(S: set<nat>, bf: BranchFactor, height: nat, levels: map<nat, nat>, levels': map<nat, nat>,
                    layer: nat, merged: set<nat>, t: nat)
    requires layer + 3 <= height && LevelsDownTo(S, bf, height, levels, layer + 1)
    requires IsMerged(levels, levels', layer, bf.Exponent(height - layer - 2), merged) && t in levels && t in levels'
    ensures layer <= levels'[t] && levels'[t] + 2 <= height && FilledAt(S, bf, height, levels'[t], t)
    ensures levels'[t] > layer ==> !FilledAt(S, bf, height, levels'[t] - 1, t)
  {
    hide Filled, Shr, Pow2;
    MergedTwig(S, bf, height, levels, layer, t);
  }

  lemma MergedNodes(S: set<nat>, bf: BranchFactor, height: nat, levels: map<nat, nat>, levels': map<nat, nat>,
                    layer: nat, merged: set<nat>)
    requires layer + 3 <= height && LevelsDownTo(S, bf, height, levels, layer + 1)
    requires IsMerged(levels, levels', layer, bf.Exponent(height - layer - 2), merged)
    ensures AreFilledNodes(S, bf, height - layer, merged)
  {
    hide Filled, Shr, Pow2, LevelsDownTo;
    forall p: nat ensures p in merged <==> Filled(S, bf.Exponent(height - layer), p) {
      MergeIsFilled(S, bf, height, levels, layer, p);
    }
  }

  lemma MergedTwig(S: set<nat>, bf: BranchFactor, height: nat, levels: map<nat, nat>, layer: nat, t: nat)
    requires layer + 3 <= height && LevelsDownTo(S, bf, height, levels, layer + 1) && t in levels
    ensures Filled(AtLevel(levels, layer + 1), bf.Exponent(height - layer - 2), Shr(t, bf.Exponent(height - layer - 2)))
            <==> FilledAt(S, bf, height, layer, t)
    ensures FilledAt(S, bf, height, layer, t) ==> levels[t] == layer + 1
  {
    MergeIsFilled(S, bf, height, levels, layer, Shr(t, bf.Exponent(height - layer - 2)));
    var l := levels[t];
    if l > layer + 1 {
      NotFilledAbove(S, bf, height, layer, l - 1, t);
    }
  }

  lemma NotFilledAbove(S: set<nat>, bf: BranchFactor, height: nat, layer: nat, lower: nat, twig: nat)
    requires layer <= lower && lower + 2 <= height
    ensures !FilledAt(S, bf, height, lower, twig) ==> !FilledAt(S, bf, height, layer, twig)
  {
    if FilledAt(S, bf, height, layer, twig) {
      FilledBelow(S, bf, height, layer, lower, twig);
    }
  }

  /** With fewer merged nodes than a node has children, no node further up can be filled. */
  lemma NoFurtherMerges(S: set<nat>, bf: BranchFactor, height: nat, levels: map<nat, nat>, layer: nat, merged: set<nat>)
    requires layer + 2 <= height && LevelsDownTo(S, bf, height, levels, layer)
    requires |merged| < bf.NodeSize()
    requires AreFilledNodes(S, bf, height - layer, merged)
    ensures LevelsDownTo(S, bf, height, levels, 0)
  {
    if layer > 0 {
      forall t | t in levels ensures !FilledAt(S, bf, height, layer - 1, t) {
        FilledHasChildren(S, bf, height - layer + 1, Shr(t, bf.Exponent(height - layer - 1)), merged);
      }
    }
  }

  /** All the children of a filled node are filled. */
  lemma FilledHasChildren(S: set<nat>, bf: BranchFactor, h: nat, p: nat, children: set<nat>)
    requires h > 0
    requires AreFilledNodes(S, bf, h - 1, children)
    ensures Filled(S, bf.Exponent(h), p) ==> bf.NodeSize() <= |children|
  {
    var first := bf.FirstChild(p);
    if Filled(S, bf.Exponent(h), p) {
      forall c | c in Range(first, first + bf.NodeSize() - 1) ensures c in children {
        ChildIndex(bf, p, c);
        FilledChild(S, bf, h, c);
      }
      RangeSize(first, bf.NodeSize());
      SubsetSize(Range(first, first + bf.NodeSize() - 1), children);
    }
  }

  lemma {:induction false} RangeSize(lo: nat, n: nat)
    ensures |Range(lo, lo + n - 1)| == n
    decreases n
  {
    if n > 0 {
      RangeSize(lo + 1, n - 1);
      assert lo + 1 + (n - 1) - 1 == lo + n - 1;
    }
  }

  lemma AllLayersSeen(S: set<nat>, bf: BranchFactor, height: nat, levels: map<nat, nat>)
    requires height >= 2 && LevelsDownTo(S, bf, height, levels, 0)
    ensures FilledLevels(S, bf, height, levels)
  {
    forall t, l: nat | t in levels && l < levels[t] ensures !FilledAt(S, bf, height, l, t) {
      if FilledAt(S, bf, height, l, t) {
        FilledBelow(S, bf, height, l, levels[t] - 1, t);
      }
    }
  }
}
