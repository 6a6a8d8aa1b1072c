/** Writing Brotli streams that take their data as it is or from a shared dictionary. */
module BrotliStream {
  import opened Wrappers
  import opened Bits
  import opened BrotliBits
  import opened BrotliFormat

  const MAX_METABLOCK_SIZE: nat := 0x100_0000

  lemma BlockSizePowers()
    ensures Pow2(16) == 65536 && Pow2(20) == 1048576 && Pow2(24) == MAX_METABLOCK_SIZE
  {
    assert Pow2(8) == 256;
    assert Pow2(12) == 4096;
  }

  // ---------- distances ----------

  /** The largest distance that the distance codes reach with so many postfix bits. */
  function MaxDistance(postfix: nat): nat {
    Shl(67108860, postfix)
  }

  function NumOfPostfixBits(distance: nat): nat {
    if distance <= 67108860 then 0 else if distance <= 134217720 then 1 else if distance <= 268435440 then 2 else 3
  }

  /** The fewest postfix bits that reach the distance. */
  lemma PostfixBitsReach(distance: nat)
    requires distance <= MaxDistance(3)
    ensures var p := NumOfPostfixBits(distance);
            p <= 3 && distance <= MaxDistance(p) && forall q :: 0 <= q < p ==> MaxDistance(q) < distance
  {
    SmallShifts(67108860);
    assert MaxDistance(3) == 536870880;
  }

  /** The last symbol of the alphabet: 15 + 48 * 2^postfix. */
  function LastDistanceCode(postfix: nat): (r: nat)
    ensures r >= 16
  {
    if postfix == 0 then 63 else if postfix == 1 then 111 else if postfix == 2 then 207 else 399
  }

  /** The last symbol with all its extra bits set gives the largest distance. */
  lemma MaxDistanceReached(postfix: nat)
    requires postfix <= 3
    ensures LastDistanceCode(postfix) == 15 + Shl(48, postfix)
    ensures DistanceExtraBits(LastDistanceCode(postfix), postfix) == 24
    ensures DistanceOf(LastDistanceCode(postfix), MAX_METABLOCK_SIZE - 1, postfix) == MaxDistance(postfix)
  {
    SmallShifts(48);
    ThreeShifted();
    LastCodeParts(postfix);
    hide Shr, LowBits;
    SmallShifts(67108859);
    SmallShifts(67108860);
  }

  lemma LastCodeParts(postfix: nat)
    requires postfix <= 3
    ensures var c := LastDistanceCode(postfix) - 16;
            Shr(c, postfix + 1) == 23 && Shr(c, postfix) == 47 && LowBits(c, postfix) == [0, 1, 3, 7][postfix]
  {
    assert Shr(47, 1) == 23 && Shr(95, 2) == 23 && Shr(191, 3) == 23 && Shr(383, 4) == 23;
  }

  lemma ThreeShifted()
    ensures Shl(3, 24) == 3 * MAX_METABLOCK_SIZE
  {
    assert Shl(3, 8) == 768;
    assert Shl(3, 16) == 196608;
  }

  /** Distance codes from the Brotli library: a symbol, how many extra bits, and those bits. */
  type DistanceEncoder = (nat, nat) -> (nat, nat, nat)

  ghost predicate DistanceOk(c: (nat, nat, nat), distance: nat, postfix: nat) {
    && 16 <= c.0 < Pow2(DistanceAlphabetBits(postfix)) && c.1 == DistanceExtraBits(c.0, postfix) <= 24 && c.2 < Pow2(c.1)
    && DistanceOf(c.0, c.2, postfix) == distance
  }

  /** What is assumed of the library: its codes mean the distances they are made for. */
  ghost predicate EncodesDistances(encode: DistanceEncoder) {
    forall d, p :: p <= 3 && 1 <= d <= MaxDistance(p) ==> DistanceOk(encode(d, p), d, p)
  }

  /** One less than the length of a number in binary. */
  function Log2Floor(x: nat): (n: nat)
    requires x > 0
    ensures Pow2(n) <= x < 2 * Pow2(n)
  {
    if x == 1 then 0 else Log2Floor(x / 2) + 1
  }

  /** The parts of a distance, as section 4 of RFC 7932 takes them together: low bits for the postfix, then the number of
      extra bits, one bit of the symbol, and the extra bits. */
  function DirectDistanceCode(distance: nat, postfix: nat): (nat, nat, nat) {
    if distance == 0 then (0, 0, 0)
    else
      var low, y := LowBits(distance - 1, postfix), Shr(distance - 1, postfix) + 4;
      var n := Log2Floor(y) - 1;
      var extra := LowBits(y, n);
      (16 + Shl(2 * (n - 1) + Shr(y, n) % 2, postfix) + low, n, extra)
  }

  /** The top two bits of a number of n + 2 bits. */
  lemma TopTwoBits(y: nat, n: nat)
    requires Pow2(n + 1) <= y < 2 * Pow2(n + 1)
    ensures 2 <= Shr(y, n) <= 3 && y == Shl(2 + Shr(y, n) % 2, n) + LowBits(y, n)
  {
    LowBitsOf(y, n);
    ShrRange(y, n, 2);
    ShrRange(y, n, 3);
    TwiceThrice(n);
    if y < 3 * Pow2(n) {
      assert Shr(y, n) == 2;
    } else {
      assert Shr(y, n) == 3;
    }
  }

  lemma {:induction false} TwiceThrice(n: nat)
    ensures Shl(2, n) == 2 * Pow2(n) && Shl(3, n) == 3 * Pow2(n)
  {
    if n > 0 {
      TwiceThrice(n - 1);
    }
  }

  /** The symbol's parts can be read off it again. */
  lemma SymbolParts(high: nat, low: nat, postfix: nat)
    requires low < Pow2(postfix)
    ensures var c := Shl(high, postfix) + low;
            Shr(c, postfix) == high && Shr(c, postfix + 1) == high / 2 && LowBits(c, postfix) == low
  {
    var c := Shl(high, postfix) + low;
    ShrRange(c, postfix, high);
    ShrShr(c, postfix, 1);
    assert Shr(high, 1) == high / 2;
    LowBitsOf(c, postfix);
  }

  /** Distances within reach do not take more than 24 extra bits. */
  lemma FewExtraBits(distance: nat, postfix: nat)
    requires 1 <= distance <= MaxDistance(postfix)
    ensures Shr(distance - 1, postfix) + 4 < 4 * MAX_METABLOCK_SIZE
  {
    LowBitsOf(distance - 1, postfix);
    var q := Shr(distance - 1, postfix);
    if q >= 67108860 {
      ShlMonotonic(67108860, q, postfix);
    }
  }

  lemma ExtraBitsBelow(y: nat, n: nat)
    requires Pow2(n + 1) <= y < 4 * MAX_METABLOCK_SIZE
    ensures n <= 24
  {
    BlockSizePowers();
    if n >= 25 {
      Pow2Monotonic(26, n + 1);
    }
  }

  /** The codes made from the parts of a distance mean that distance. */
  lemma DirectCodeOk(distance: nat, postfix: nat)
    requires postfix <= 3 && 1 <= distance <= MaxDistance(postfix)
    ensures DistanceOk(DirectDistanceCode(distance, postfix), distance, postfix)
  {
    hide Shl, Shr, LowBits, Pow2, Log2Floor, DistanceOf, DistanceExtraBits, DistanceAlphabetBits, MaxDistance;
    var low, y := LowBits(distance - 1, postfix), Shr(distance - 1, postfix) + 4;
    AtLeastTwo(y);
    var n := Log2Floor(y) - 1;
    var high := 2 * (n - 1) + Shr(y, n) % 2;
    LowBitsOf(distance - 1, postfix);
    FewExtraBits(distance, postfix);
    TopTwoBits(y, n);
    LowBitsOf(y, n);
    ExtraBitsBelow(y, n);
    SymbolParts(high, low, postfix);
    Halves(n - 1, Shr(y, n) % 2);
    SymbolFits(high, low, postfix);
    DirectMeans(distance, postfix, high, low, y, n);
  }

  lemma AtLeastTwo(y: nat)
    requires y >= 4
    ensures Log2Floor(y) >= 2
  {
  }

  lemma Halves(a: nat, b: nat)
    requires b < 2
    ensures (2 * a + b) / 2 == a && (2 * a + b) % 2 == b
  {
  }

  lemma SymbolFits(high: nat, low: nat, postfix: nat)
    requires postfix <= 3 && high <= 47 && low < Pow2(postfix)
    ensures 16 + Shl(high, postfix) + low < Pow2(DistanceAlphabetBits(postfix))
  {
    AlphabetBitsExact(postfix);
    ShlMonotonic(high, 47, postfix);
    ShlGrows(47, postfix);
  }

  lemma DirectMeans(distance: nat, postfix: nat, high: nat, low: nat, y: nat, n: nat)
    requires distance >= 1 && low == LowBits(distance - 1, postfix) && y == Shr(distance - 1, postfix) + 4
    requires distance - 1 == Shl(Shr(distance - 1, postfix), postfix) + low && n >= 1 && high / 2 == n - 1
    requires y == Shl(2 + high % 2, n) + LowBits(y, n)
    requires var c := Shl(high, postfix) + low; Shr(c, postfix) == high && Shr(c, postfix + 1) == high / 2 && LowBits(c, postfix) == low
    ensures DistanceExtraBits(16 + Shl(high, postfix) + low, postfix) == n
    ensures DistanceOf(16 + Shl(high, postfix) + low, LowBits(y, n), postfix) == distance
  {
    hide Shl, Shr, LowBits;
  }

  /** There is an encoder as it is assumed. */
  lemma DirectEncoderWorks()
    ensures EncodesDistances(DirectDistanceCode)
  {
    hide DistanceOk, MaxDistance, DirectDistanceCode;
    forall d, p | p <= 3 && 1 <= d <= MaxDistance(p) ensures DistanceOk(DirectDistanceCode(d, p), d, p) {
      DirectCodeOk(d, p);
    }
  }

  // ---------- copy lengths ----------

  const CODE_TO_EXTRA_BITS: seq<nat> := [0, 0, 0, 0, 0, 0, 0, 0, 1, 1, 2, 2, 3, 3, 4, 4, 5, 5, 6, 7, 8, 9, 10, 24]

  lemma ExtraBitsTable(code: nat)
    requires code <= 23
    ensures |CODE_TO_EXTRA_BITS| == 24 && CODE_TO_EXTRA_BITS[code] == CopyExtraBits(code)
  {
  }

  /** Where one code's lengths end, the next code's begin. */
  lemma NextBase(code: nat)
    requires code < 23
    ensures CopyBase(code + 1) == CopyBase(code) + Shl(1, CopyExtraBits(code))
  {
    ShlOfOne(CopyExtraBits(code));
    SmallPowers();
    assert Pow2(0) == 1 && Pow2(1) == 2 && Pow2(3) == 8 && Pow2(5) == 32 && Pow2(7) == 128 && Pow2(9) == 512;
  }

  /** The copy length code of a length, with the extra bits that tell it from others with the same code. */
  method ToCopyCode(length: nat) returns (code: nat, numExtraBits: nat, extraBits: nat)
    requires 2 <= length <= MAX_METABLOCK_SIZE
    ensures code <= 23 && numExtraBits == CopyExtraBits(code)
    ensures CopyBase(code) + extraBits == length && extraBits < Pow2(numExtraBits)
  {
    hide CopyBase, CopyExtraBits, Shl;
    code := 0;
    var maxLength, prevMaxLength := 2, 1;
    FirstBase();
    ExtraBitsTable(0);
    while true
      invariant code <= 23 && prevMaxLength + 1 == CopyBase(code) <= length
      invariant maxLength == prevMaxLength + Shl(1, CopyExtraBits(code))
      decreases 23 - code
    {
      ExtraBitsTable(code);
      ShlOfOne(CopyExtraBits(code));
      if length <= maxLength || code == 23 {
        numExtraBits := CODE_TO_EXTRA_BITS[code];
        extraBits := length - prevMaxLength - 1;
        LastBase(code);
        return;
      }
      NextBase(code);
      code := code + 1;
      ExtraBitsTable(code);
      prevMaxLength := maxLength;
      maxLength := maxLength + Shl(1, CODE_TO_EXTRA_BITS[code]);
    }
  }

  lemma FirstBase()
    ensures CopyBase(0) == 2 && CopyExtraBits(0) == 0 && Shl(1, 0) == 1
  {
  }

  lemma LastBase(code: nat)
    ensures code == 23 ==> CopyBase(code) == 2118 && Pow2(CopyExtraBits(code)) == MAX_METABLOCK_SIZE
  {
    BlockSizePowers();
  }

  /** The symbol for inserting nothing and copying; the copy code and the insert code can be read off it. */
  method InsertAndCopyCode(copyLength: nat) returns (symbol: nat, numExtraBits: nat, extraBits: nat)
    requires 2 <= copyLength <= MAX_METABLOCK_SIZE
    ensures 128 <= symbol < 704 && InsertCode(symbol) == 0 && numExtraBits == CopyExtraBits(CopyCode(symbol)) <= 24
    ensures CopyBase(CopyCode(symbol)) + extraBits == copyLength && extraBits < Pow2(numExtraBits)
  {
    hide CopyBase, CopyExtraBits, Pow2, BitOr, InsertCode, CopyCode;
    var copyCode;
    copyCode, numExtraBits, extraBits := ToCopyCode(copyLength);
    SymbolOf(copyCode);
    var prefix := 0;
    if copyCode <= 7 {
      prefix := 128;
    } else if copyCode <= 15 {
      prefix := 192;
      copyCode := copyCode - 8;
    } else {
      prefix := 384;
      copyCode := copyCode - 16;
    }
    symbol := BitOr(prefix, copyCode);
  }

  lemma SymbolOf(code: nat)
    requires code <= 23
    ensures var symbol := if code <= 7 then BitOr(128, code) else if code <= 15 then BitOr(192, code - 8) else BitOr(384, code - 16);
            128 <= symbol < 704 && InsertCode(symbol) == 0 && CopyCode(symbol) == code && CopyExtraBits(code) <= 24
  {
    hide BitOr, Shl, InsertCode, CopyCode;
    if code <= 7 {
      OrLowThree(16, code);
    } else if code <= 15 {
      OrLowThree(24, code - 8);
    } else {
      OrLowThree(48, code - 16);
    }
    CodesOfSymbol(code);
  }

  lemma OrLowThree(high: nat, low: nat)
    requires low < 8
    ensures BitOr(8 * high, low) == 8 * high + low
  {
    assert Pow2(3) == 8;
    OrDisjoint(low, high, 3);
    SmallShifts(high);
  }

  lemma CodesOfSymbol(code: nat)
    requires code <= 23
    ensures var symbol := if code <= 7 then 128 + code else if code <= 15 then 192 + code - 8 else 384 + code - 16;
            InsertCode(symbol) == 0 && CopyCode(symbol) == code
  {
  }

  // ---------- what has been written can be read ----------

  lemma LengthRead(c: seq<bool>, code: nat, size: nat)
    requires code < 3 && 0 < size <= Pow2(4 * (4 + code)) && (code > 0 ==> size > Pow2(4 * (3 + code)))
    ensures var t := c + NumberBits(0, 1) + NumberBits(code, 2) + NumberBits(size - 1, 4 * (4 + code));
            ReadNumber(t, |c|, 1) == Got(0, |c| + 1) && ReadLength(t, |c| + 1) == Got(Some(size), |t|)
  {
    hide NumberBits, ReadNumber, Embeds;
    var a := c + NumberBits(0, 1);
    var b := a + NumberBits(code, 2);
    var t := b + NumberBits(size - 1, 4 * (4 + code));
    NumberRead(c, 0, 1);
    SmallPowers();
    NumberRead(a, code, 2);
    NumberRead(b, size - 1, 4 * (4 + code));
    hide Pow2;
    EmbedsMore(a, NumberBits(code, 2));
    EmbedsMore(b, NumberBits(size - 1, 4 * (4 + code)));
    EmbedsTrans(a, b, t);
    NumberMoves(a, t, 0, |c|, 1);
    NumberMoves(b, t, 0, |a|, 2);
  }

  lemma SkipRead(c: seq<bool>)
    ensures var m := c + NumberBits(0, 1) + NumberBits(3, 2) + NumberBits(0, 1) + NumberBits(0, 2);
            var t := m + Zeros(Padding(|m|));
            ReadBlock(t, |c|) == Got(Skip, |t|)
  {
    hide NumberBits, ReadNumber, Embeds, Padding;
    var a := c + NumberBits(0, 1);
    var b := a + NumberBits(3, 2);
    var m := b + NumberBits(0, 3);
    var t := m + Zeros(Padding(|m|));
    NumberRead(c, 0, 1);
    NumberRead(a, 3, 2);
    NumberRead(b, 0, 3);
    PaddingRead(m);
    EmbedsMore(a, NumberBits(3, 2));
    EmbedsMore(b, NumberBits(0, 3));
    EmbedsMore(m, Zeros(Padding(|m|)));
    EmbedsTrans(b, m, t);
    EmbedsTrans(a, b, t);
    NumberMoves(a, t, 0, |c|, 1);
    NumberMoves(b, t, 0, |a|, 2);
    NumberMoves(m, t, 0, |b|, 3);
    ZeroBits(1, 2);
    assert c + NumberBits(0, 1) + NumberBits(3, 2) + NumberBits(0, 1) + NumberBits(0, 2) == m;
  }

  lemma ZeroBits(n: nat, m: nat)
    ensures NumberBits(0, n) + NumberBits(0, m) == NumberBits(0, n + m)
  {
    BitsOfZero(n);
    BitsOfZero(m);
    BitsOfZero(n + m);
  }

  ghost function BlockTypeBits(postfix: nat): seq<bool> {
    NumberBits(0, 1) + NumberBits(0, 3) + NumberBits(postfix, 2) + NumberBits(0, 8)
  }

  /** Not uncompressed, one block type and one tree of each kind. */
  lemma BlockTypesRead(c: seq<bool>, postfix: nat)
    requires postfix <= 3
    ensures var t := c + BlockTypeBits(postfix);
            ReadNumber(t, |c|, 1) == Got(0, |c| + 1) && ReadBlockTypes(t, |c| + 1) == Got(postfix, |t|)
  {
    hide NumberBits, ReadNumber, Embeds;
    var a := c + NumberBits(0, 1);
    var b := a + NumberBits(0, 3);
    var d := b + NumberBits(postfix, 2);
    var t := d + NumberBits(0, 8);
    assert t == c + BlockTypeBits(postfix);
    NumberRead(c, 0, 1);
    NumberRead(a, 0, 3);
    SmallPowers();
    NumberRead(b, postfix, 2);
    NumberRead(d, 0, 8);
    hide Pow2;
    EmbedsMore(a, NumberBits(0, 3));
    EmbedsMore(b, NumberBits(postfix, 2));
    EmbedsMore(d, NumberBits(0, 8));
    EmbedsTrans(b, d, t);
    EmbedsTrans(a, b, t);
    NumberMoves(a, t, 0, |c|, 1);
    NumberMoves(b, t, 0, |a|, 3);
    NumberMoves(d, t, 0, |b|, 2);
  }

  lemma SimpleTreeRead(c: seq<bool>, symbol: nat, width: nat)
    requires symbol < Pow2(width)
    ensures var t := c + NumberBits(1, 2) + NumberBits(0, 2) + NumberBits(symbol, width);
            ReadSimpleTree(t, |c|, width) == Got(symbol, |t|)
  {
    hide NumberBits, ReadNumber, Embeds;
    var a := c + NumberBits(1, 4);
    var t := a + NumberBits(symbol, width);
    SmallPowers();
    assert NumberBits(1, 4) == NumberBits(1, 2) + NumberBits(0, 2) by {
      BitsOfSum(1, 0, 2, 2);
      ShlOfOne(2);
    }
    assert t == c + NumberBits(1, 2) + NumberBits(0, 2) + NumberBits(symbol, width);
    NumberRead(c, 1, 4);
    NumberRead(a, symbol, width);
    EmbedsMore(a, NumberBits(symbol, width));
    NumberMoves(a, t, 0, |c|, 4);
  }

  lemma CommandRead(c: seq<bool>, postfix: nat, symbol: nat, code: nat, length: nat, extra: nat, dextra: nat)
    requires 128 <= symbol < 704 && InsertCode(symbol) == 0 && code >= 16
    requires CopyBase(CopyCode(symbol)) + extra == length && extra < Pow2(CopyExtraBits(CopyCode(symbol)))
    requires dextra < Pow2(DistanceExtraBits(code, postfix))
    ensures var t := c + NumberBits(extra, CopyExtraBits(CopyCode(symbol))) + NumberBits(dextra, DistanceExtraBits(code, postfix));
            ReadCommand(t, |c|, postfix, symbol, code, length) == Got(Copy(length, DistanceOf(code, dextra, postfix)), |t|)
  {
    hide NumberBits, ReadNumber, Embeds, CopyExtraBits, CopyCode, InsertCode, CopyBase, DistanceExtraBits, DistanceOf, Pow2;
    var a := c + NumberBits(extra, CopyExtraBits(CopyCode(symbol)));
    var t := a + NumberBits(dextra, DistanceExtraBits(code, postfix));
    NumberRead(c, extra, CopyExtraBits(CopyCode(symbol)));
    NumberRead(a, dextra, DistanceExtraBits(code, postfix));
    EmbedsMore(a, NumberBits(dextra, DistanceExtraBits(code, postfix)));
    NumberMoves(a, t, 0, |c|, CopyExtraBits(CopyCode(symbol)));
  }

  /** The parts of a meta-block that copies, each at the end of the bits written up to it. */
  lemma CopyBlockRead(base: seq<bool>, a: seq<bool>, b: seq<bool>, c: seq<bool>, d: seq<bool>, e: seq<bool>, t: seq<bool>,
                      length: nat, postfix: nat, symbol: nat, code: nat, distance: nat)
    requires Embeds(a, b, 0) && Embeds(b, c, 0) && Embeds(c, d, 0) && Embeds(d, e, 0) && Embeds(e, t, 0)
    requires ReadNumber(a, |base|, 1) == Got(0, |base| + 1) && ReadLength(a, |base| + 1) == Got(Some(length), |a|)
    requires ReadNumber(b, |a|, 1) == Got(0, |a| + 1) && ReadBlockTypes(b, |a| + 1) == Got(postfix, |b|)
    requires ReadSimpleTree(c, |b|, 8) == Got(0, |c|) && ReadSimpleTree(d, |c|, 10) == Got(symbol, |d|)
    requires ReadSimpleTree(e, |d|, DistanceAlphabetBits(postfix)) == Got(code, |e|)
    requires ReadCommand(t, |e|, postfix, symbol, code, length) == Got(Copy(length, distance), |t|)
    ensures ReadBlock(t, |base|) == Got(Copy(length, distance), |t|)
  {
    hide ReadNumber, ReadLength, ReadBlockTypes, ReadSimpleTree, ReadCommand, Embeds, DistanceAlphabetBits;
    EmbedsTrans(d, e, t);
    EmbedsTrans(c, d, t);
    EmbedsTrans(b, c, t);
    EmbedsTrans(a, b, t);
    NumberMoves(a, t, 0, |base|, 1);
    LengthMoves(a, t, 0, |base| + 1);
    NumberMoves(b, t, 0, |a|, 1);
    BlockTypesMove(b, t, 0, |a| + 1);
    SimpleTreeMoves(c, t, 0, |b|, 8);
    SimpleTreeMoves(d, t, 0, |c|, 10);
    SimpleTreeMoves(e, t, 0, |d|, DistanceAlphabetBits(postfix));
  }

  lemma UncompressedRead(base: seq<bool>, a: seq<bool>, bytes: seq<Byte>)
    requires ReadNumber(a, |base|, 1) == Got(0, |base| + 1) && ReadLength(a, |base| + 1) == Got(Some(|bytes|), |a|)
    ensures var b := a + NumberBits(1, 1);
            var t := b + Zeros(Padding(|b|)) + BytesBits(bytes);
            Embeds(a, t, 0) && ReadBlock(t, |base|) == Got(Uncompressed(bytes), |t|)
  {
    hide ReadNumber, ReadLength, Embeds, ReadBytes, SkipPadding, Padding, NumberBits, BytesBits;
    var b := a + NumberBits(1, 1);
    var c := b + Zeros(Padding(|b|));
    var t := c + BytesBits(bytes);
    EmbedsMore(a, NumberBits(1, 1));
    EmbedsMore(b, Zeros(Padding(|b|)));
    EmbedsMore(c, BytesBits(bytes));
    EmbedsTrans(b, c, t);
    EmbedsTrans(a, b, t);
    NumberMoves(a, t, 0, |base|, 1);
    LengthMoves(a, t, 0, |base| + 1);
    NumberRead(a, 1, 1);
    NumberMoves(b, t, 0, |a|, 1);
    PaddingRead(b);
    PaddingMoves(c, t, 0, |b|);
    BytesRead(c, bytes);
  }

  lemma EndRead(c: seq<bool>)
    ensures var m := c + NumberBits(1, 1) + NumberBits(1, 1);
            var t := m + Zeros(Padding(|m|));
            ReadBlock(t, |c|) == Got(End, |t|)
  {
    hide ReadNumber, Embeds, SkipPadding, Padding, NumberBits;
    var a := c + NumberBits(1, 1);
    var m := a + NumberBits(1, 1);
    var t := m + Zeros(Padding(|m|));
    EmbedsMore(a, NumberBits(1, 1));
    EmbedsMore(m, Zeros(Padding(|m|)));
    EmbedsTrans(a, m, t);
    NumberRead(c, 1, 1);
    NumberRead(a, 1, 1);
    NumberMoves(a, t, 0, |c|, 1);
    NumberMoves(m, t, 0, |a|, 1);
    PaddingRead(m);
  }

  // ---------- the stream header ----------

  const WINDOW_CODES: seq<(nat, nat)> := [
    (0x21, 7), (0x31, 7), (0x41, 7), (0x51, 7), (0x61, 7), (0x71, 7), (0, 1), (1, 7),
    (3, 4), (5, 4), (7, 4), (9, 4), (11, 4), (13, 4), (15, 4)]

  lemma SliceRead(x: nat, n: nat, i: nat, m: nat)
    requires i + m <= n
    ensures ReadNumber(NumberBits(x, n), i, m) == Got(LowBits(Shr(x, i), m), i + m)
  {
    BitsSplit(x, i, n - i);
    BitsSplit(Shr(x, i), m, n - i - m);
    assert NumberBits(x, n)[i..i + m] == NumberBits(Shr(x, i), m);
    BitsNumberBits(Shr(x, i), m);
  }

  lemma ShortWindowCode(n: nat)
    requires 1 <= n <= 7
    ensures ReadWindowBits(NumberBits(1 + 2 * n, 4), 0) == Got(17 + n, 4)
  {
    hide ReadNumber, NumberBits, Shr, LowBits;
    SliceRead(1 + 2 * n, 4, 0, 1);
    SliceRead(1 + 2 * n, 4, 1, 3);
    ShortCodeParts(n);
  }

  lemma ShortCodeParts(n: nat)
    requires n <= 7
    ensures LowBits(Shr(1 + 2 * n, 0), 1) == 1 && LowBits(Shr(1 + 2 * n, 1), 3) == n
  {
    assert Shr(1 + 2 * n, 1) == n;
    assert Pow2(3) == 8;
    LowBitsSmall(n, 3);
  }

  lemma LongWindowCode(m: nat)
    requires m <= 7 && m != 1
    ensures ReadWindowBits(NumberBits(1 + 16 * m, 7), 0) == Got(if m == 0 then 17 else 8 + m, 7)
  {
    hide ReadNumber, NumberBits, Shr, LowBits;
    SliceRead(1 + 16 * m, 7, 0, 1);
    SliceRead(1 + 16 * m, 7, 1, 3);
    SliceRead(1 + 16 * m, 7, 4, 3);
    LongCodeParts(m);
  }

  lemma LongCodeParts(m: nat)
    requires m <= 7
    ensures var v := 1 + 16 * m;
            LowBits(Shr(v, 0), 1) == 1 && LowBits(Shr(v, 1), 3) == 0 && LowBits(Shr(v, 4), 3) == m
  {
    var v := 1 + 16 * m;
    assert Pow2(3) == 8;
    assert v / 2 == 8 * m && Shr(v, 1) == 8 * m;
    assert Shr(2 * m, 1) == m;
    assert Shr(4 * m, 2) == m;
    assert Shr(8 * m, 3) == m;
    LowThreeZero(m);
    LowBitsSmall(m, 3);
  }

  lemma LowThreeZero(m: nat)
    ensures LowBits(8 * m, 3) == 0
  {
    assert LowBits(2 * m, 1) == 0;
    assert LowBits(4 * m, 2) == 0;
  }

  lemma SingleWindowCode()
    ensures ReadWindowBits(NumberBits(0, 1), 0) == Got(16, 1)
  {
    SliceRead(0, 1, 0, 1);
  }

  /** The header says how large the window is. */
  lemma WindowCodeRead(windowBits: nat)
    requires 10 <= windowBits <= 24
    ensures |WINDOW_CODES| == 15
    ensures var code := WINDOW_CODES[windowBits - 10];
            code.0 < 256 && code.1 <= 7 && ReadWindowBits(NumberBits(code.0, code.1), 0) == Got(windowBits, code.1)
  {
    hide ReadWindowBits, NumberBits;
    if windowBits == 16 {
      SingleWindowCode();
    } else if windowBits >= 18 {
      ShortWindowCode(windowBits - 17);
    } else {
      LongWindowCode(if windowBits == 17 then 0 else windowBits - 8);
    }
  }

  // ---------- the stream ----------

  /** Where the meta-blocks begin: after the header of a stream that starts at zero and is not empty. */
  ghost predicate HeaderOk(bits: seq<bool>, windowBits: nat, startingOffset: nat, size: nat, start: nat) {
    if startingOffset > 0 then start == 0
    else if size == 0 then start == 0 && bits == []
    else ReadWindowBits(bits, 0) == Got(windowBits, start)
  }

  ghost predicate OnlyCopies(blocks: seq<MetaBlock>) {
    forall i :: 0 <= i < |blocks| ==> blocks[i].Copy? && 2 <= blocks[i].length <= MAX_METABLOCK_SIZE
  }

  lemma OnlyCopiesConcat(a: seq<MetaBlock>, b: seq<MetaBlock>, c: seq<MetaBlock>)
    requires |a| <= |b| <= |c| && b[..|a|] == a && c[..|b|] == b && OnlyCopies(b[|a|..]) && OnlyCopies(c[|b|..])
    ensures c[..|a|] == a && OnlyCopies(c[|a|..])
  {
    assert c[..|a|] == c[..|b|][..|a|];
    forall i | 0 <= i < |c| - |a| ensures c[|a|..][i].Copy? && 2 <= c[|a|..][i].length <= MAX_METABLOCK_SIZE {
      if i < |b| - |a| {
        assert c[|a|..][i] == c[..|b|][|a| + i] == b[|a|..][i];
      } else {
        assert c[|a|..][i] == c[|b|..][i - (|b| - |a|)];
      }
    }
  }

  /** The stream can be read, and executing what is read gives all that was inserted. */
  ghost predicate StreamOk(bits: seq<bool>, windowBits: nat, window: nat, dictionary: seq<nat>, prior: seq<nat>, start: nat,
                           blocks: seq<MetaBlock>, output: seq<nat>)
  {
    && |prior| <= |output|
    && HeaderOk(bits, windowBits, |prior|, |output|, start)
    && Reads(bits, start, blocks, |bits|)
    && ExecuteAll(blocks, dictionary, window, prior) == Some(output)
  }

  lemma OneMoreBlock(a: seq<bool>, b: seq<bool>, windowBits: nat, window: nat, dictionary: seq<nat>, prior: seq<nat>, start: nat,
                     blocks: seq<MetaBlock>, output: seq<nat>, block: MetaBlock, output': seq<nat>)
    requires StreamOk(a, windowBits, window, dictionary, prior, start, blocks, output)
    requires |output| > 0 && |output| <= |output'| && Embeds(a, b, 0)
    requires ReadBlock(b, |a|) == Got(block, |b|) && Execute(block, dictionary, window, output) == Some(output')
    ensures StreamOk(b, windowBits, window, dictionary, prior, start, blocks + [block], output')
  {
    hide ReadBlock, Execute, Embeds, ReadWindowBits;
    ReadsOneMore(a, b, start, blocks, block);
    ExecuteConcat(blocks, [block], dictionary, window, prior);
    assert [block][1..] == [];
    if |prior| == 0 {
      WindowBitsMove(a, b, 0);
    }
  }

  /** The first meta-block of a stream comes right after the header. */
  lemma FirstBlock(a: seq<bool>, b: seq<bool>, windowBits: nat, window: nat, dictionary: seq<nat>, block: MetaBlock, output: seq<nat>)
    requires |output| > 0 && ReadWindowBits(a, 0) == Got(windowBits, |a|) && Embeds(a, b, 0)
    requires ReadBlock(b, |a|) == Got(block, |b|) && Execute(block, dictionary, window, []) == Some(output)
    ensures StreamOk(b, windowBits, window, dictionary, [], |a|, [block], output)
  {
    hide ReadBlock, Execute, Embeds, ReadWindowBits;
    WindowBitsMove(a, b, 0);
    var none: seq<MetaBlock> := [];
    assert [block][1..] == none;
    assert Reads(b, |b|, none, |b|);
    assert Reads(b, |a|, [block], |b|);
    assert ExecuteAll(none, dictionary, window, output) == Some(output);
    assert ExecuteAll([block], dictionary, window, []) == Some(output);
  }

  class BrotliStream {
    const windowBits: nat
    const windowSize: nat
    const startingOffset: nat
    const dictionarySize: nat
    const buffer: BrotliBitBuffer
    const encodeDistance: DistanceEncoder
    var uncompressedSize: U32
    ghost const dictionary: seq<nat>
    ghost const prior: seq<nat>
    ghost var output: seq<nat>
    ghost var blocks: seq<MetaBlock>
    ghost var start: nat

    ghost predicate Settings()
      reads this
    {
      && 10 <= windowBits <= 24 && windowSize == Shl(1, windowBits) - 16 && |dictionary| == dictionarySize
      && |prior| == startingOffset && EncodesDistances(encodeDistance) && dictionarySize + windowSize <= MaxDistance(3)
    }

    ghost predicate Valid()
      reads this, buffer
    {
      && Settings() && buffer.Valid() && uncompressedSize == |output|
      && StreamOk(buffer.Contents(), windowBits, windowSize, dictionary, prior, start, blocks, output)
    }

    /** A stream that starts after `prior`, for a shared dictionary; the window is kept within its limits. */
    constructor (windowBits: nat, ghost dictionary: seq<nat>, dictionarySize: nat, ghost prior: seq<nat>, startingOffset: nat, encodeDistance: DistanceEncoder)
      requires |dictionary| == dictionarySize && |prior| == startingOffset < U32_LIMIT && EncodesDistances(encodeDistance)
      requires dictionarySize + Shl(1, Clamped(windowBits)) - 16 <= MaxDistance(3)
      ensures Valid() && fresh(buffer) && this.dictionary == dictionary && this.prior == prior && output == prior && blocks == []
      ensures this.windowBits == Clamped(windowBits)
    {
      var clamped := Clamped(windowBits);
      this.windowBits := clamped;
      WindowSizeFits(clamped);
      this.windowSize := Shl(1, clamped) - 16;
      this.startingOffset, this.dictionarySize, this.encodeDistance := startingOffset, dictionarySize, encodeDistance;
      this.uncompressedSize := startingOffset;
      this.dictionary, this.prior, output, blocks, start := dictionary, prior, prior, [], 0;
      buffer := new BrotliBitBuffer();
    }

    method AddStreamHeader()
      requires Settings() && buffer.Valid() && buffer.Contents() == []
      modifies buffer
      ensures buffer.Valid() && ReadWindowBits(buffer.Contents(), 0) == Got(windowBits, |buffer.Contents()|)
    {
      hide ReadWindowBits, NumberBits, BufferOk, BufferBits, EncodesDistances, MaxDistance;
      WindowCodeRead(windowBits);
      var code := WINDOW_CODES[windowBits - 10];
      buffer.AppendNumber(code.0, code.1);
      assert buffer.Contents() == NumberBits(code.0, code.1);
    }

    /** The start of a meta-block with data: after the stream header, if it is the first. */
    method AddMlen(size: nat) returns (ok: bool, ghost base: seq<bool>)
      requires Valid() && size > 0
      modifies buffer
      ensures buffer.Valid() && (ok <==> size <= MAX_METABLOCK_SIZE)
      ensures !ok ==> buffer.Contents() == old(buffer.Contents())
      ensures ok ==> LengthWritten(base, buffer.Contents(), size)
      ensures ok && uncompressedSize > 0 ==> base == old(buffer.Contents())
      ensures ok && uncompressedSize == 0 ==> ReadWindowBits(base, 0) == Got(windowBits, |base|)
    {
      hide ReadWindowBits, BufferOk, BufferBits, StreamOk, EncodesDistances, MaxDistance, LengthWritten, Pow2;
      base := [];
      var numNibbles, numNibblesCode := 0, 0;
      if size <= 0x1_0000 {
        numNibbles, numNibblesCode := 4, 0;
      } else if size <= 0x10_0000 {
        numNibbles, numNibblesCode := 5, 1;
      } else if size <= MAX_METABLOCK_SIZE {
        numNibbles, numNibblesCode := 6, 2;
      } else {
        return false, base;
      }
      NibblesFit(size, numNibblesCode);
      if uncompressedSize == 0 {
        NothingYet(buffer.Contents(), windowBits, windowSize, dictionary, prior, start, blocks, output);
        AddStreamHeader();
      }
      base := buffer.Contents();
      AddLength(size, numNibbles, numNibblesCode);
      ok := true;
    }

    method AddLength(size: nat, numNibbles: nat, numNibblesCode: nat)
      requires buffer.Valid() && numNibblesCode < 3 && numNibbles == 4 + numNibblesCode && 0 < size <= MAX_METABLOCK_SIZE
      requires size <= Pow2(4 * (4 + numNibblesCode)) && (numNibblesCode > 0 ==> size > Pow2(4 * (3 + numNibblesCode)))
      modifies buffer
      ensures buffer.Valid() && LengthWritten(old(buffer.Contents()), buffer.Contents(), size)
    {
      hide NumberBits, BufferOk, BufferBits, ReadNumber, ReadLength, Embeds, Pow2;
      ghost var base := buffer.Contents();
      LengthRead(base, numNibblesCode, size);
      buffer.AppendNumber(0, 1);
      buffer.AppendNumber(numNibblesCode, 2);
      buffer.AppendNumber(size - 1, numNibbles * 4);
      LengthEmbeds(base, numNibblesCode, size - 1, numNibbles * 4);
    }

    /** An empty meta-block, which ends with a byte. */
    method AddEmptyBlock()
      requires buffer.Valid()
      modifies buffer
      ensures buffer.Valid() && buffer.bitIndex == 8 && |buffer.Contents()| % 8 == 0
      ensures Embeds(old(buffer.Contents()), buffer.Contents(), 0)
      ensures ReadBlock(buffer.Contents(), |old(buffer.Contents())|) == Got(Skip, |buffer.Contents()|)
    {
      hide NumberBits, BufferOk, BufferBits, ReadBlock;
      SkipRead(buffer.Contents());
      buffer.AppendNumber(0, 1);
      buffer.AppendNumber(3, 2);
      buffer.AppendNumber(0, 1);
      buffer.AppendNumber(0, 2);
      buffer.PadToEndOfByte();
    }

    method AddPrefixTree(code: U32, width: nat)
      requires buffer.Valid() && width <= 32 && code < Pow2(width)
      modifies buffer
      ensures buffer.Valid() && Embeds(old(buffer.Contents()), buffer.Contents(), 0)
      ensures ReadSimpleTree(buffer.Contents(), |old(buffer.Contents())|, width) == Got(code, |buffer.Contents()|)
    {
      hide NumberBits, BufferOk, BufferBits, ReadSimpleTree, Pow2;
      SimpleTreeRead(buffer.Contents(), code, width);
      buffer.AppendNumber(1, 2);
      buffer.AppendNumber(0, 2);
      buffer.AppendNumber(code, width);
    }

    method AddBlockTypes(postfixBits: nat)
      requires buffer.Valid() && postfixBits <= 3
      modifies buffer
      ensures buffer.Valid() && Embeds(old(buffer.Contents()), buffer.Contents(), 0)
      ensures ReadNumber(buffer.Contents(), |old(buffer.Contents())|, 1) == Got(0, |old(buffer.Contents())| + 1)
      ensures ReadBlockTypes(buffer.Contents(), |old(buffer.Contents())| + 1) == Got(postfixBits, |buffer.Contents()|)
    {
      hide NumberBits, BufferOk, BufferBits, ReadNumber, ReadBlockTypes;
      ghost var c := buffer.Contents();
      BlockTypesRead(c, postfixBits);
      buffer.AppendNumber(0, 1);
      buffer.AppendNumber(0, 1);
      buffer.AppendNumber(0, 1);
      buffer.AppendNumber(0, 1);
      buffer.AppendNumber(postfixBits, 2);
      buffer.AppendNumber(0, 4);
      buffer.AppendNumber(0, 2);
      buffer.AppendNumber(0, 1);
      buffer.AppendNumber(0, 1);
      SameBlockTypeBits(c, postfixBits);
      EmbedsMore(c, BlockTypeBits(postfixBits));
    }

    /** The extra bits of the copy length and of the distance. */
    method AddCommand(symbol: nat, copyExtraBits: nat, code: nat, distanceExtraBits: nat, ghost postfix: nat, ghost length: nat, copyWidth: nat, distanceWidth: nat)
      requires buffer.Valid() && 128 <= symbol < 704 && InsertCode(symbol) == 0 && code >= 16
      requires copyWidth == CopyExtraBits(CopyCode(symbol)) <= 24 && distanceWidth == DistanceExtraBits(code, postfix) <= 24
      requires CopyBase(CopyCode(symbol)) + copyExtraBits == length && copyExtraBits < Pow2(copyWidth) && distanceExtraBits < Pow2(distanceWidth)
      modifies buffer
      ensures buffer.Valid() && Embeds(old(buffer.Contents()), buffer.Contents(), 0)
      ensures ReadCommand(buffer.Contents(), |old(buffer.Contents())|, postfix, symbol, code, length)
              == Got(Copy(length, DistanceOf(code, distanceExtraBits, postfix)), |buffer.Contents()|)
    {
      hide NumberBits, BufferOk, BufferBits, ReadCommand, Pow2, CopyBase, CopyCode, CopyExtraBits, InsertCode, DistanceExtraBits, DistanceOf;
      CommandRead(buffer.Contents(), postfix, symbol, code, length, copyExtraBits, distanceExtraBits);
      BelowU32(copyExtraBits, copyWidth);
      BelowU32(distanceExtraBits, distanceWidth);
      buffer.AppendNumber(copyExtraBits, copyWidth);
      buffer.AppendNumber(distanceExtraBits, distanceWidth);
    }

    /** The rest of a meta-block that copies `length` bytes from a distance. */
    method AddCopy(distance: nat, length: nat, ghost base: seq<bool>)
      requires Settings() && buffer.Valid() && 2 <= length <= MAX_METABLOCK_SIZE && 1 <= distance <= MaxDistance(3)
      requires LengthWritten(base, buffer.Contents(), length)
      modifies buffer
      ensures buffer.Valid() && Embeds(base, buffer.Contents(), 0)
      ensures ReadBlock(buffer.Contents(), |base|) == Got(Copy(length, distance), |buffer.Contents()|)
    {
      hide BufferOk, BufferBits, ReadNumber, ReadLength, ReadBlockTypes, ReadSimpleTree, ReadCommand, ReadBlock, Embeds, MaxDistance,
        DistanceAlphabetBits, NumOfPostfixBits, Pow2, InsertCode, CopyCode, CopyBase, CopyExtraBits, DistanceExtraBits, DistanceOf;
      ghost var a := buffer.Contents();
      PostfixBitsReach(distance);
      var postfixBits := NumOfPostfixBits(distance);
      AddBlockTypes(postfixBits);
      ghost var b := buffer.Contents();
      SmallSymbols();
      AddPrefixTree(0, 8);
      ghost var c := buffer.Contents();
      var symbol, copyWidth, copyExtraBits := InsertAndCopyCode(length);
      AddPrefixTree(symbol, 10);
      ghost var d := buffer.Contents();
      var code := encodeDistance(distance, postfixBits);
      assert DistanceOk(code, distance, postfixBits);
      AlphabetWidth(postfixBits);
      BelowU32(code.0, DistanceAlphabetBits(postfixBits));
      AddPrefixTree(code.0, DistanceAlphabetBits(postfixBits));
      ghost var e := buffer.Contents();
      AddCommand(symbol, copyExtraBits, code.0, code.2, postfixBits, length, copyWidth, code.1);
      ghost var t := buffer.Contents();
      CopyBlockRead(base, a, b, c, d, e, t, length, postfixBits, symbol, code.0, distance);
      EmbedsTrans(base, a, b);
      EmbedsTrans(base, b, c);
      EmbedsTrans(base, c, d);
      EmbedsTrans(base, d, e);
      EmbedsTrans(base, e, t);
    }

    /** Takes [offset, offset + length) of the dictionary, in pieces that fit into a meta-block. A single byte cannot be taken. */
    method InsertFromDictionary(offset: nat, length: nat) returns (ok: bool)
      requires Valid() && offset + length <= dictionarySize && uncompressedSize + length < U32_LIMIT
      modifies this, buffer
      ensures Valid() && (ok <==> length != 1)
      ensures !ok ==> output == old(output) && blocks == old(blocks) && buffer.Contents() == old(buffer.Contents())
      ensures ok ==> output == old(output) + dictionary[offset..offset + length]
      ensures |old(blocks)| <= |blocks| && blocks[..|old(blocks)|] == old(blocks) && OnlyCopies(blocks[|old(blocks)|..])
      decreases length
    {
      hide StreamOk, BufferOk, BufferBits, ReadNumber, ReadLength, ReadBlock, ReadWindowBits, EncodesDistances, Embeds, MaxDistance;
      if length == 0 {
        return true;
      }
      if length == 1 {
        return false;
      }
      var distance := dictionarySize + Least(windowSize, uncompressedSize) - offset;
      var added;
      ghost var base;
      added, base := AddMlen(length);
      if !added {
        var remainder := length - MAX_METABLOCK_SIZE;
        if remainder <= 1 {
          remainder := 2;
        }
        ghost var before := blocks;
        ok := InsertFromDictionary(offset, length - remainder);
        ghost var middle := blocks;
        var ok2 := InsertFromDictionary(offset + (length - remainder), remainder);
        OnlyCopiesConcat(before, middle, blocks);
        assert dictionary[offset..offset + length] ==
               dictionary[offset..offset + (length - remainder)] + dictionary[offset + (length - remainder)..offset + length];
        return ok && ok2;
      }
      AddCopy(distance, length, base);
      ghost var block := Copy(length, distance);
      CopyExecutes(dictionary, windowSize, output, offset, length);
      Emitted(old(buffer.Contents()), base, block, output + dictionary[offset..offset + length]);
      uncompressedSize := uncompressedSize + length;
      ok := true;
    }

    /** Copies bytes into the stream as they are. Nothing at all must not be inserted: that leaves a meta-block after which
        the reader finds the start of a last one that is not complete. */
    method InsertUncompressed(bytes: seq<Byte>)
      requires Valid() && uncompressedSize + |bytes| < U32_LIMIT
      modifies this, buffer
      ensures buffer.Valid()
      ensures bytes != [] ==> Valid() && output == old(output) + bytes
      ensures bytes == [] ==> var bits := buffer.Contents();
                |bits| >= 8 && Reads(bits, start, old(blocks) + [Skip], |bits| - 8) && ReadBlock(bits, |bits| - 8) == Fail
      decreases |bytes|
    {
      hide StreamOk, BufferOk, BufferBits, ReadNumber, ReadLength, ReadBlock, ReadWindowBits, EncodesDistances, Embeds, MaxDistance, Execute,
        NumberBits, BytesBits, Reads, Padding;
      var size := |bytes|;
      ghost var bits := buffer.Contents();
      if size == 0 {
        AddEmptyBlock();
        ghost var middle := buffer.Contents();
        buffer.AppendNumber(1, 1);
        buffer.PadToEndOfByte();
        NothingInserted(bits, middle, windowBits, windowSize, dictionary, prior, start, blocks, output);
        return;
      }
      var added;
      ghost var base;
      added, base := AddMlen(size);
      if !added {
        assert bytes == bytes[..MAX_METABLOCK_SIZE] + bytes[MAX_METABLOCK_SIZE..];
        InsertUncompressed(bytes[..MAX_METABLOCK_SIZE]);
        InsertUncompressed(bytes[MAX_METABLOCK_SIZE..]);
        return;
      }
      ghost var withLength := buffer.Contents();
      UncompressedRead(base, withLength, bytes);
      buffer.AppendNumber(1, 1);
      buffer.PadToEndOfByte();
      buffer.AppendRaw(bytes);
      EmbedsTrans(base, withLength, buffer.Contents());
      UncompressedExecutes(dictionary, windowSize, output, bytes);
      Emitted(bits, base, Uncompressed(bytes), output + bytes);
      uncompressedSize := uncompressedSize + size;
    }

    /** Fills up the last byte with an empty meta-block. */
    method ByteAlign()
      requires Valid()
      modifies this, buffer
      ensures Valid() && buffer.bitIndex == 8 && output == old(output)
      ensures uncompressedSize == old(uncompressedSize)
      ensures if old(buffer.bitIndex) == 8 then blocks == old(blocks) && buffer.Contents() == old(buffer.Contents())
              else blocks == old(blocks) + [Skip]
    {
      hide StreamOk, BufferOk, BufferBits, ReadBlock, Embeds, Execute, EncodesDistances, MaxDistance;
      if buffer.bitIndex == 8 {
        return;
      }
      ghost var before := buffer.Contents();
      NotAligned(buffer.buffer, buffer.bitIndex);
      if output == [] {
        NothingYet(before, windowBits, windowSize, dictionary, prior, start, blocks, output);
      }
      AddEmptyBlock();
      NothingExecutes(dictionary, windowSize, output);
      OneMoreBlock(before, buffer.Contents(), windowBits, windowSize, dictionary, prior, start, blocks, output, Skip, output);
      blocks := blocks + [Skip];
    }

    /** Appends a stream that was started where this one has got to. */
    method Append(other: BrotliStream)
      requires Valid() && other.Valid() && other != this && other.buffer != buffer
      requires other.startingOffset == uncompressedSize && other.prior == output
      requires other.windowBits == windowBits && other.dictionary == dictionary
      modifies this, buffer, other, other.buffer
      ensures Valid() && other.Valid() && output == old(other.output) && other.output == old(other.output)
    {
      hide StreamOk, BufferOk, BufferBits, EncodesDistances, MaxDistance, BytesBits;
      ByteAlign();
      other.ByteAlign();
      ghost var a, c := buffer.Contents(), other.buffer.Contents();
      AlignedLength(buffer.buffer);
      FullBuffer(other.buffer.buffer);
      buffer.AppendRaw(other.buffer.buffer);
      JoinStreams(a, c, windowBits, windowSize, dictionary, prior, start, blocks, output, other.start, other.blocks, other.output);
      OutputGrows(c, windowBits, windowSize, dictionary, output, other.start, other.blocks, other.output);
      if output == [] {
        start := other.start;
      }
      blocks := blocks + other.blocks;
      output := other.output;
      uncompressedSize := uncompressedSize + (other.uncompressedSize - other.startingOffset);
    }

    /** Pads what has been inserted with zeros to a multiple of four bytes. */
    method FourByteAlignUncompressed()
      requires Valid() && uncompressedSize + 4 < U32_LIMIT
      modifies this, buffer
      ensures Valid() && |output| % 4 == 0
      ensures exists n :: 0 <= n < 4 && output == old(output) + ZeroBytes(n)
    {
      hide StreamOk;
      if uncompressedSize % 4 != 0 {
        var toAdd := 4 - uncompressedSize % 4;
        InsertUncompressed(ZeroBytes(toAdd));
      } else {
        assert output == old(output) + ZeroBytes(0);
      }
    }

    /** Ends the stream. Unless it is empty it can then be read to its end, and executing it gives all that was inserted. */
    method EndStream()
      requires Valid()
      modifies this, buffer
      ensures buffer.Valid() && buffer.bitIndex == 8 && output == old(output)
      ensures output != [] ==> Valid() && blocks == old(blocks) + [End]
      ensures output == [] ==> buffer.Contents() == [true, true] + Zeros(6)
    {
      hide StreamOk, BufferOk, BufferBits, ReadBlock, Embeds, Execute, EncodesDistances, MaxDistance, Padding, NumberBits;
      ghost var before := buffer.Contents();
      EndRead(before);
      EndEmbeds(before);
      buffer.AppendNumber(1, 1);
      buffer.AppendNumber(1, 1);
      buffer.PadToEndOfByte();
      if output != [] {
        NothingExecutes(dictionary, windowSize, output);
        OneMoreBlock(before, buffer.Contents(), windowBits, windowSize, dictionary, prior, start, blocks, output, End, output);
        blocks := blocks + [End];
      } else {
        NothingYet(before, windowBits, windowSize, dictionary, prior, start, blocks, output);
        EmptyStreamBits();
      }
    }

    /** Accounts for a meta-block that has just been written after `base`. */
    ghost method Emitted(before: seq<bool>, base: seq<bool>, block: MetaBlock, output': seq<nat>)
      requires Settings() && buffer.Valid() && uncompressedSize == |output| < |output'|
      requires StreamOk(before, windowBits, windowSize, dictionary, prior, start, blocks, output)
      requires if uncompressedSize > 0 then base == before else ReadWindowBits(base, 0) == Got(windowBits, |base|)
      requires Embeds(base, buffer.Contents(), 0) && ReadBlock(buffer.Contents(), |base|) == Got(block, |buffer.Contents()|)
      requires Execute(block, dictionary, windowSize, output) == Some(output')
      modifies `output, `blocks, `start
      ensures output == output' && blocks == old(blocks) + [block]
      ensures StreamOk(buffer.Contents(), windowBits, windowSize, dictionary, prior, start, blocks, output)
    {
      hide BufferOk, BufferBits, ReadBlock, ReadWindowBits, Embeds, Execute, EncodesDistances, MaxDistance;
      if uncompressedSize > 0 {
        OneMoreBlock(before, buffer.Contents(), windowBits, windowSize, dictionary, prior, start, blocks, output, block, output');
      } else {
        NothingYet(before, windowBits, windowSize, dictionary, prior, start, blocks, output);
        FirstBlock(base, buffer.Contents(), windowBits, windowSize, dictionary, block, output');
        assert blocks + [block] == [block] && prior == [];
        start := |base|;
      }
      output := output';
      blocks := blocks + [block];
    }
  }

  /** Windows have 10 to 24 bits. */
  function Clamped(windowBits: nat): (r: nat)
    ensures 10 <= r <= 24 && (windowBits <= r || r == 24) && (r <= windowBits || r == 10)
  {
    if windowBits > 24 then 24 else if windowBits < 10 then 10 else windowBits
  }

  lemma WindowSizeFits(windowBits: nat)
    requires 10 <= windowBits <= 24
    ensures 1008 <= Shl(1, windowBits) - 16
  {
    ShlOfOne(windowBits);
    Pow2Monotonic(10, windowBits);
    SmallPowers();
  }

  /** A dictionary of this size is within reach of any window. */
  lemma LargeDictionaryFits(windowBits: nat)
    ensures 520093680 + Shl(1, Clamped(windowBits)) - 16 <= MaxDistance(3)
  {
    ShlOfOne(Clamped(windowBits));
    Pow2Monotonic(Clamped(windowBits), 24);
    BlockSizePowers();
    SmallShifts(67108860);
  }

  ghost predicate LengthWritten(base: seq<bool>, bits: seq<bool>, size: nat) {
    && Embeds(base, bits, 0) && ReadNumber(bits, |base|, 1) == Got(0, |base| + 1)
    && ReadLength(bits, |base| + 1) == Got(Some(size), |bits|)
  }

  /** Without the highest nibble the length would not fit. */
  lemma NibblesFit(size: nat, code: nat)
    requires size > 0 && code < 3
    requires code == 0 ==> size <= 0x1_0000
    requires code == 1 ==> 0x1_0000 < size <= 0x10_0000
    requires code == 2 ==> 0x10_0000 < size <= MAX_METABLOCK_SIZE
    ensures size <= Pow2(4 * (4 + code)) && (code > 0 ==> size > Pow2(4 * (3 + code)))
  {
    BlockSizePowers();
  }

  lemma LengthEmbeds(base: seq<bool>, code: nat, number: nat, width: nat)
    ensures Embeds(base, base + NumberBits(0, 1) + NumberBits(code, 2) + NumberBits(number, width), 0)
  {
  }

  lemma SameBlockTypeBits(c: seq<bool>, postfix: nat)
    ensures c + NumberBits(0, 1) + NumberBits(0, 1) + NumberBits(0, 1) + NumberBits(0, 1) + NumberBits(postfix, 2) + NumberBits(0, 4)
            + NumberBits(0, 2) + NumberBits(0, 1) + NumberBits(0, 1) == c + BlockTypeBits(postfix)
  {
    hide NumberBits;
    ZeroBits(1, 1);
    ZeroBits(2, 1);
    ZeroBits(4, 2);
    ZeroBits(6, 1);
    ZeroBits(7, 1);
  }

  lemma BelowU32(x: nat, width: nat)
    requires x < Pow2(width) && width <= 24
    ensures x < U32_LIMIT
  {
    Pow2Monotonic(width, 24);
    BlockSizePowers();
  }

  lemma SmallSymbols()
    ensures 0 < Pow2(8) && Pow2(10) == 1024
  {
    SmallPowers();
  }

  lemma AlphabetWidth(postfix: nat)
    ensures DistanceAlphabetBits(postfix) <= 9
  {
  }

  /** A distance from the end of the dictionary and the window leads back to the offset. */
  lemma CopyExecutes(dictionary: seq<nat>, window: nat, output: seq<nat>, offset: nat, length: nat)
    requires offset + length <= |dictionary| && length > 0
    ensures Execute(Copy(length, |dictionary| + Least(window, |output|) - offset), dictionary, window, output)
            == Some(output + dictionary[offset..offset + length])
  {
    assert dictionary[offset..][..length] == dictionary[offset..offset + length];
  }

  /** Before anything has been inserted into a stream from zero nothing has been written. */
  lemma NothingYet(bits: seq<bool>, windowBits: nat, window: nat, dictionary: seq<nat>, prior: seq<nat>, start: nat, blocks: seq<MetaBlock>, output: seq<nat>)
    requires StreamOk(bits, windowBits, window, dictionary, prior, start, blocks, output) && output == []
    ensures bits == [] && prior == [] && start == 0 && blocks == []
  {
    assert bits == [] && start == 0;
    NothingToRead();
  }

  lemma NothingToRead()
    ensures ReadBlock([], 0) == Fail
  {
    assert ReadNumber([], 0, 1) == Fail;
  }

  function ZeroBytes(n: nat): (r: seq<Byte>)
    ensures |r| == n
  {
    seq(n, _ => 0)
  }

  lemma NothingExecutes(dictionary: seq<nat>, window: nat, output: seq<nat>)
    ensures Execute(Skip, dictionary, window, output) == Some(output) && Execute(End, dictionary, window, output) == Some(output)
  {
  }

  lemma UncompressedExecutes(dictionary: seq<nat>, window: nat, output: seq<nat>, bytes: seq<Byte>)
    ensures Execute(Uncompressed(bytes), dictionary, window, output) == Some(output + bytes)
  {
  }

  lemma NotAligned(buffer: seq<Byte>, bitIndex: nat)
    requires BufferOk(buffer, bitIndex) && 0 < bitIndex < 8
    ensures BufferBits(buffer, bitIndex) != []
  {
    assert |BufferBits(buffer, bitIndex)| == 8 * (|buffer| - 1) + bitIndex;
  }

  lemma AlignedLength(buffer: seq<Byte>)
    ensures |BufferBits(buffer, 8)| == 8 * |buffer|
  {
    FullBuffer(buffer);
  }

  lemma EndEmbeds(c: seq<bool>)
    ensures var m := c + NumberBits(1, 1) + NumberBits(1, 1);
            Embeds(c, m + Zeros(Padding(|m|)), 0)
  {
  }

  lemma EmptyStreamBits()
    ensures var m := [] + NumberBits(1, 1) + NumberBits(1, 1);
            m + Zeros(Padding(|m|)) == [true, true] + Zeros(6)
  {
  }

  /** What ending an empty stream leaves cannot be read: there is no window size in front of the last meta-block. */
  lemma EmptyStreamUnreadable(blocks: seq<MetaBlock>, end: nat)
    requires blocks != []
    ensures var bits := [true, true] + Zeros(6);
            ReadWindowBits(bits, 0) == Got(18, 4) && !Reads(bits, 4, blocks, end)
  {
    var bits := [true, true] + Zeros(6);
    assert bits[0..1] == [true] && bits[1..4] == [true, false, false];
    OneBit();
    assert bits[4..5] == [false] && bits[5..7] == [false, false];
    assert ReadNumber(bits, 4, 1) == Got(0, 5);
    assert ReadNumber(bits, 5, 2) == Got(0, 7);
    assert ReadNumber(bits, 7, 16) == Fail;
  }

  lemma OneBit()
    ensures BitsNumber([true]) == 1 && BitsNumber([true, false, false]) == 1 && BitsNumber([false]) == 0 && BitsNumber([false, false]) == 0
  {
    assert [false][1..] == [] && [false, false][1..] == [false] && [true, false, false][1..] == [false, false];
  }

  lemma NothingInserted(bits: seq<bool>, middle: seq<bool>, windowBits: nat, window: nat, dictionary: seq<nat>, prior: seq<nat>, start: nat,
                        blocks: seq<MetaBlock>, output: seq<nat>)
    requires StreamOk(bits, windowBits, window, dictionary, prior, start, blocks, output)
    requires Embeds(bits, middle, 0) && ReadBlock(middle, |bits|) == Got(Skip, |middle|) && |middle| % 8 == 0
    ensures var m := middle + NumberBits(1, 1);
            var t := m + Zeros(Padding(|m|));
            |t| == |middle| + 8 && Reads(t, start, blocks + [Skip], |middle|) && ReadBlock(t, |middle|) == Fail
  {
    hide ReadBlock, Embeds, ReadWindowBits, NumberBits, BytesBits;
    ReadsOneMore(bits, middle, start, blocks, Skip);
    var m := middle + NumberBits(1, 1);
    var t := m + Zeros(Padding(|m|));
    assert t == middle + (NumberBits(1, 1) + Zeros(7));
    EmbedsMore(middle, NumberBits(1, 1) + Zeros(7));
    ReadsMove(middle, t, 0, start, blocks + [Skip], |middle|);
    LastButNotEmpty(middle, t);
  }

  lemma LastButNotEmpty(middle: seq<bool>, t: seq<bool>)
    requires t == middle + (NumberBits(1, 1) + Zeros(7))
    ensures ReadBlock(t, |middle|) == Fail
  {
    assert t[|middle|..|middle| + 1] == [true];
    assert t[|middle| + 1..|middle| + 2] == [false];
    OneBit();
  }

  /** A stream that starts with an output only adds to it. */
  lemma OutputGrows(bits: seq<bool>, windowBits: nat, window: nat, dictionary: seq<nat>, prior: seq<nat>, start: nat, blocks: seq<MetaBlock>, output: seq<nat>)
    requires StreamOk(bits, windowBits, window, dictionary, prior, start, blocks, output)
    ensures |prior| <= |output|
  {
  }

  /** Two streams, the second started after what the first one gives, joined at the end of a byte. */
  lemma JoinStreams(a: seq<bool>, c: seq<bool>, windowBits: nat, window: nat, dictionary: seq<nat>, prior: seq<nat>, start: nat,
                    blocks: seq<MetaBlock>, output: seq<nat>, start': nat, blocks': seq<MetaBlock>, output': seq<nat>)
    requires StreamOk(a, windowBits, window, dictionary, prior, start, blocks, output) && |a| % 8 == 0
    requires StreamOk(c, windowBits, window, dictionary, output, start', blocks', output')
    ensures StreamOk(a + c, windowBits, window, dictionary, prior, if output == [] then start' else start, blocks + blocks', output')
  {
    hide ReadBlock, ReadWindowBits, Execute;
    ExecuteConcat(blocks, blocks', dictionary, window, prior);
    if output == [] {
      NothingYet(a, windowBits, window, dictionary, prior, start, blocks, output);
      assert a + c == c && blocks + blocks' == blocks';
    } else {
      EmbedsMore(a, c);
      ReadsMove(a, a + c, 0, start, blocks, |a|);
      assert Embeds(c, a + c, |a|);
      ReadsMove(c, a + c, |a|, start', blocks', |c|);
      ReadsConcat(a + c, start, blocks, |a|, blocks', |a| + |c|);
      if prior == [] {
        WindowBitsMove(a, a + c, 0);
      }
    }
  }
}
