/** The branch factors of sparse bit sets and the constant tables that go with them. */
module BranchFactors {
  import opened Bits

  datatype BranchFactor = BF2 | BF4 | BF8 | BF32 {

    /** kBFNodeSizeLog2 */
    function Log2(): (k: nat)
      ensures 1 <= k <= 5
    {
      match this
      case BF2 => 1
      case BF4 => 2
      case BF8 => 3
      case BF32 => 5
    }

    /** kBFNodeSize */
    function NodeSize(): (n: nat)
      ensures n == Pow2(Log2())
    {
      match this
      case BF2 => 2
      case BF4 => 4
      case BF8 => 8
      case BF32 => 32
    }

    /** `x * kBFNodeSize`, or `x << kBFNodeSizeLog2`: the index of the first child of block `x`. */
    function FirstChild(x: nat): (r: nat)
      ensures r == Shl(x, Log2())
    {
      SmallShifts(x);
      match this
      case BF2 => 2 * x
      case BF4 => 4 * x
      case BF8 => 8 * x
      case BF32 => 32 * x
    }

    /** The exponent of a node with `h` levels left, counting itself: it covers 2^(k * h) values. */
    function Exponent(h: nat): nat {
      if h == 0 then 0 else Log2() + Exponent(h - 1)
    }

    lemma {:induction false} ExponentIsProduct(h: nat)
      ensures Exponent(h) == Log2() * h
    {
      if h > 0 { ExponentIsProduct(h - 1); }
    }

    /** kBFTwigSizeLog2: a twig is one level above the leaves. */
    function TwigSizeLog2(): (n: nat)
      ensures n == Exponent(2)
    {
      ExponentIsProduct(2);
      2 * Log2()
    }

    /** kBFTwigSize */
    function TwigSize(): (n: nat)
      ensures n == Pow2(TwigSizeLog2())
    {
      match this
      case BF2 => 4
      case BF4 => 16
      case BF8 => 64
      case BF32 => SmallPowers(); 1024
    }

    /** kBFMaxDepth */
    function MaxDepth(): nat {
      match this
      case BF2 => 31
      case BF4 => 16
      case BF8 => 11
      case BF32 => 7
    }

    /** One more than the largest node that can be written. */
    function WordLimit(): (n: nat)
      ensures n == Pow2(NodeSize())
    {
      match this
      case BF2 => 4
      case BF4 => SmallPowers(); 16
      case BF8 => SmallPowers(); 256
      case BF32 => SmallPowers(); U32_LIMIT
    }

    /** The branch factor field of the first byte. */
    function Code(): (c: nat)
      ensures c < 4
    {
      match this
      case BF2 => 0
      case BF4 => 1
      case BF8 => 2
      case BF32 => 3
    }

    /** The codes number the branch factors by their size; with four codes this fixes each of them. */
    static lemma CodesFollowSizes(a: BranchFactor, b: BranchFactor)
      ensures a.Code() < b.Code() <==> a.NodeSize() < b.NodeSize()
      ensures a.Code() == b.Code() <==> a == b
    {
    }

    /** All 32 bit values are within the largest depth, and no depth less would do; binary trees stop one short of that. */
    lemma MaxDepthIsLeast()
      ensures MaxDepth() > 0
      ensures if this == BF2 then Exponent(MaxDepth()) == 31 else Exponent(MaxDepth() - 1) < 32 <= Exponent(MaxDepth())
    {
      ExponentIsProduct(MaxDepth());
      ExponentIsProduct(MaxDepth() - 1);
    }

    static function FromCode(c: nat): (bf: BranchFactor)
      requires c < 4
      ensures bf.Code() == c
    {
      match c
      case 0 => BF2
      case 1 => BF4
      case 2 => BF8
      case _ => BF32
    }
  }
}
