/** Tree heights, and the one pass that finds the filled twigs for all branch factors at once. */
module BranchFactorChoice {
  import opened Bits
  import opened BranchFactors
  import opened IntSets
  import opened SparseTree
  import opened FilledNodes

  // ---------- tree height ----------

  /** The least height, at least one, of a tree that covers the value. */
  ghost predicate IsTreeDepth(maxValue: nat, bf: BranchFactor, depth: nat) {
    && depth >= 1
    && Shr(maxValue, bf.Exponent(depth)) == 0
    && (depth > 1 ==> Shr(maxValue, bf.Exponent(depth - 1)) != 0)
  }

  method TreeDepthFor(maxValue: U32, bf: BranchFactor) returns (depth: nat)
    ensures IsTreeDepth(maxValue, bf, depth)
  {
    depth := 1;
    var rest := Shr(maxValue, bf.Log2());
    assert bf.Exponent(1) == bf.Log2();
    while rest != 0
      invariant depth >= 1 && rest == Shr(maxValue, bf.Exponent(depth))
      invariant depth > 1 ==> Shr(maxValue, bf.Exponent(depth - 1)) != 0
      decreases rest
    {
      depth := depth + 1;
      assert bf.Exponent(depth) == bf.Exponent(depth - 1) + bf.Log2();
      ShrShr(maxValue, bf.Exponent(depth - 1), bf.Log2());
      ShrShrinks(rest, bf.Log2());
      rest := Shr(rest, bf.Log2());
    }
  }

  lemma {:induction false} ShrShrinks(x: nat, n: nat)
    requires x > 0 && n > 0
    ensures Shr(x, n) < x
  {
    if n > 1 && x / 2 > 0 {
      ShrShrinks(x / 2, n - 1);
    } else if n > 1 {
      ShrOfZero(n - 1);
    }
  }

  /** Only binary trees can be too high for a 32 bit value, and only from 2^31 on. */
  lemma DepthLimit(maxValue: U32, bf: BranchFactor, depth: nat)
    requires IsTreeDepth(maxValue, bf, depth)
    ensures depth > bf.MaxDepth() <==> bf == BF2 && maxValue >= 0x8000_0000
  {
    SmallPowers();
    assert Pow2(31) == 0x8000_0000;
    bf.ExponentIsProduct(depth);
    if depth > 1 {
      bf.ExponentIsProduct(depth - 1);
      ZeroAbove(maxValue, 32, bf.Exponent(depth - 1));
      ZeroAbove(maxValue, 31, bf.Exponent(depth - 1));
    }
    if maxValue >= 0x8000_0000 {
      ZeroAbove(maxValue, bf.Exponent(depth), 31);
      assert Shr(maxValue, 31) != 0 by { ShrOfOne(maxValue, 31); }
    }
  }

  lemma ZeroAbove(x: nat, n: nat, m: nat)
    ensures x < Pow2(n) && n <= m ==> Shr(x, m) == 0
    ensures Shr(x, n) == 0 && n <= m ==> Shr(x, m) == 0
  {
    if n <= m {
      ShrRange(x, n, 0);
      ShlOfOne(n);
      ShrShr(x, n, m - n);
      ShrOfZero(m - n);
    }
  }

  lemma ShrOfOne(x: nat, n: nat)
    requires Pow2(n) <= x
    ensures Shr(x, n) != 0
  {
    ShrRange(x, n, 0);
    ShlOfOne(n);
  }

  // ---------- one scan for all branch factors ----------

  /** The n values up to x are in S, and the one before them is not. */
  ghost predicate RunEnds(S: set<nat>, x: nat, n: nat) {
    && 1 <= n <= x + 1
    && (forall y :: x + 1 - n <= y <= x ==> y in S)
    && (n == x + 1 || x - n !in S)
  }

  lemma RunFillsTwig(S: set<nat>, e: nat, x: nat, n: nat)
    requires RunEnds(S, x, n) && LastInBlock(e, x)
    ensures Filled(S, e, Shr(x, e)) <==> n >= Pow2(e)
  {
    var q, p := Shr(x, e), Pow2(e);
    LastInBlockIsMask(e, x);
    ShrRange(x, e, q);
    ShrRange(x + 1, e, q + 1);
    assert x == Shl(q, e) + p - 1;
    if n >= p {
      forall y: nat | Shr(y, e) == q ensures y in S {
        ShrRange(y, e, q);
      }
    } else {
      ShrRange(x - n, e, q);
    }
  }

  function Smaller(bf: BranchFactor): BranchFactor {
    match bf
    case BF2 => BF2
    case BF4 => BF2
    case BF8 => BF4
    case BF32 => BF8
  }

  ghost predicate EndsTwigBefore(bf: BranchFactor, cp: nat) {
    bf == BF2 || LastInBlock(Smaller(bf).Exponent(2), cp)
  }

  /** A value that ends a twig ends one for every smaller branch factor. */
  lemma NestedTwigs(bf: BranchFactor, cp: nat)
    ensures LastInBlock(bf.Exponent(2), cp) ==> EndsTwigBefore(bf, cp)
  {
    if bf != BF2 {
      var a, b := Smaller(bf).TwigSizeLog2(), bf.TwigSizeLog2();
      ShrShr(cp, a, b - a);
      ShrShr(cp + 1, a, b - a);
    }
  }

  datatype TwigLists = TwigLists(bf2: seq<nat>, bf4: seq<nat>, bf8: seq<nat>, bf32: seq<nat>) {
    function For(bf: BranchFactor): seq<nat> {
      match bf
      case BF2 => bf2
      case BF4 => bf4
      case BF8 => bf8
      case BF32 => bf32
    }
  }

  ghost predicate ListsUpTo(S: set<nat>, prior: nat, lists: TwigLists) {
    forall bf: BranchFactor :: FilledTwigsUpTo(S, bf.Exponent(2), prior, lists.For(bf))
  }

  /** Records the twigs that the value completes, smallest first; stops at the first twig it does not end. */
  method RecordTwigs(cp: nat, seqLen: nat, lists: TwigLists, ghost S: set<nat>, ghost prior: nat) returns (lists': TwigLists)
    requires prior < cp && RunEnds(S, cp, seqLen) && (forall y :: prior < y < cp ==> y !in S)
    requires ListsUpTo(S, prior, lists)
    ensures ListsUpTo(S, cp, lists')
  {
    var last, bf2, bf4, bf8, bf32 := true, lists.bf2, lists.bf4, lists.bf8, lists.bf32;
    last, bf2 := RecordTwig(BF2, last, cp, seqLen, bf2, S, prior);
    last, bf4 := RecordTwig(BF4, last, cp, seqLen, bf4, S, prior);
    last, bf8 := RecordTwig(BF8, last, cp, seqLen, bf8, S, prior);
    last, bf32 := RecordTwig(BF32, last, cp, seqLen, bf32, S, prior);
    lists' := TwigLists(bf2, bf4, bf8, bf32);
  }

  /** One step of the loop over the branch factors, which stops at the first twig that the value does not end. */
  method RecordTwig(bf: BranchFactor, continues: bool, cp: nat, seqLen: nat, twigs: seq<nat>, ghost S: set<nat>, ghost prior: nat)
    returns (lastValueInTwig: bool, twigs': seq<nat>)
    requires prior < cp && RunEnds(S, cp, seqLen) && (forall y :: prior < y < cp ==> y !in S)
    requires FilledTwigsUpTo(S, bf.Exponent(2), prior, twigs)
    requires continues == EndsTwigBefore(bf, cp)
    ensures lastValueInTwig == LastInBlock(bf.Exponent(2), cp)
    ensures FilledTwigsUpTo(S, bf.Exponent(2), cp, twigs')
  {
    ghost var e := bf.Exponent(2);
    LastInBlockIsMask(e, cp);
    FilledTwigsStep(S, e, prior, cp, twigs);
    twigs', lastValueInTwig := twigs, false;
    if continues {
      lastValueInTwig := LowBits(cp, bf.TwigSizeLog2()) == bf.TwigSize() - 1;
      if lastValueInTwig {
        RunFillsTwig(S, e, cp, seqLen);
        if seqLen >= bf.TwigSize() {
          twigs' := twigs' + [Shr(cp, bf.TwigSizeLog2())];
        }
      }
    } else {
      NestedTwigs(bf, cp);
    }
  }

  /** The first value completes no twig: a twig has at least four values. */
  lemma FirstValue(codepoints: seq<nat>)
    requires Ascending(codepoints) && codepoints != []
    ensures ListsUpTo(ToSet(codepoints), codepoints[0], TwigLists([], [], [], []))
    ensures RunEnds(ToSet(codepoints), codepoints[0], 1)
  {
    var S, cp := ToSet(codepoints), codepoints[0];
    assert forall y :: -1 < y < cp ==> y !in S;
    forall bf: BranchFactor ensures FilledTwigsUpTo(S, bf.Exponent(2), cp, []) {
      var e := bf.TwigSizeLog2();
      ShrOfZero(e);
      FilledTwigsStep(S, e, -1, cp, []);
      if LastInBlock(e, cp) {
        RunFillsTwig(S, e, cp, 1);
      }
    }
  }

  /** Scans the values once for the filled twigs of every branch factor. */
  method CollectTwigs(codepoints: seq<U32>) returns (lists: TwigLists)
    requires Ascending(codepoints) && codepoints != []
    ensures forall f: BranchFactor :: AreFilledTwigs(ToSet(codepoints), f, lists.For(f))
  {
    ghost var S := ToSet(codepoints);
    lists := TwigLists([], [], [], []);
    var seqLen := 1;
    var prevCp := codepoints[0];
    FirstValue(codepoints);
    for i := 1 to |codepoints|
      invariant prevCp == codepoints[i - 1]
      invariant RunEnds(S, prevCp, seqLen) && ListsUpTo(S, prevCp, lists)
    {
      var cp := codepoints[i];
      NextInScan(codepoints, i, prevCp);
      if cp == prevCp + 1 {
        seqLen := seqLen + 1;
      } else {
        seqLen := 1;
      }
      lists := RecordTwigs(cp, seqLen, lists, S, prevCp);
      prevCp := cp;
    }
    forall f: BranchFactor ensures AreFilledTwigs(S, f, lists.For(f)) {
      AllTwigsSeen(S, f.Exponent(2), prevCp);
    }
  }

  /** The tree for the factor is not too high for the largest value. */
  predicate IsAllowed(last: U32, f: BranchFactor) {
    f == BF2 ==> last < 0x8000_0000
  }

  /** The order in which branch factors of the same size are preferred. */
  function Preference(f: BranchFactor): nat {
    match f
    case BF4 => 0
    case BF2 => 1
    case BF32 => 2
    case BF8 => 3
  }

  /** The factor is allowed, no allowed one takes fewer bytes, and it is the first of those that take as many. */
  ghost predicate IsFewest(last: U32, bytes: BranchFactor -> nat, bf: BranchFactor) {
    && IsAllowed(last, bf)
    && forall f: BranchFactor :: IsAllowed(last, f) ==>
         bytes(bf) <= bytes(f) && (bytes(f) == bytes(bf) ==> Preference(bf) <= Preference(f))
  }

  method FewestBytes(last: U32, bytes: BranchFactor -> nat) returns (bf: BranchFactor)
    ensures IsFewest(last, bytes, bf)
  {
    bf := BF4;
    var candidates := [BF2, BF32, BF8];
    for i := 0 to |candidates|
      invariant IsAllowed(last, bf) && Preference(bf) <= i
      invariant forall f: BranchFactor :: IsAllowed(last, f) && Preference(f) <= i ==>
                  bytes(bf) <= bytes(f) && (bytes(f) == bytes(bf) ==> Preference(bf) <= Preference(f))
    {
      var depth := TreeDepthFor(last, candidates[i]);
      DepthLimit(last, candidates[i], depth);
      if depth <= candidates[i].MaxDepth() && bytes(candidates[i]) < bytes(bf) {
        bf := candidates[i];
      }
    }
  }

  /** The chosen branch factor is the best by the size estimates in `bytes` of those whose tree is not too high, and the
      twigs are exactly its filled ones. */
  method ChooseBranchFactor(codepoints: seq<U32>, bytes: BranchFactor -> nat)
    returns (bf: BranchFactor, filledTwigs: seq<nat>)
    requires Ascending(codepoints) && forall cp :: cp in codepoints ==> cp < U32_LIMIT - 1
    ensures codepoints == [] ==> bf == BF8 && filledTwigs == []
    ensures codepoints != [] ==>
              && AreFilledTwigs(ToSet(codepoints), bf, filledTwigs)
              && IsFewest(codepoints[|codepoints| - 1], bytes, bf)
  {
    hide AreFilledTwigs;
    if codepoints == [] {
      return BF8, [];
    }
    var lists := CollectTwigs(codepoints);
    bf := FewestBytes(codepoints[|codepoints| - 1], bytes);
    filledTwigs := lists.For(bf);
  }
}
