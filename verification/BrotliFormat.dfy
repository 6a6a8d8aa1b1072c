/** Reading Brotli streams as RFC 7932 describes them: the kinds of meta-blocks that are written here, and what they stand
    for with a shared dictionary in front of the window. */
module BrotliFormat {
  import opened Wrappers
  import opened Bits
  import opened BrotliBits

  datatype Parse<T> = Fail | Got(value: T, pos: nat)

  datatype MetaBlock = Skip | Uncompressed(bytes: seq<nat>) | Copy(length: nat, distance: nat) | End

  function ReadNumber(bits: seq<bool>, pos: nat, n: nat): Parse<nat> {
    if pos + n <= |bits| then Got(BitsNumber(bits[pos..pos + n]), pos + n) else Fail
  }

  function Expect(bits: seq<bool>, pos: nat, n: nat, value: nat): Parse<()> {
    match ReadNumber(bits, pos, n)
    case Got(v, p) => if v == value then Got((), p) else Fail
    case Fail => Fail
  }

  /** Ignored bits up to the next byte are zero. */
  function SkipPadding(bits: seq<bool>, pos: nat): Parse<()> {
    Expect(bits, pos, Padding(pos), 0)
  }

  function ReadBytes(bits: seq<bool>, pos: nat, n: nat): Parse<seq<nat>> {
    if pos + 8 * n <= |bits|
    then Got(seq(n, i requires 0 <= i < n => BitsNumber(bits[pos + 8 * i..pos + 8 * i + 8])), pos + 8 * n)
    else Fail
  }

  // ---------- section 9.1: the window ----------

  function ReadWindowBits(bits: seq<bool>, pos: nat): Parse<nat> {
    match ReadNumber(bits, pos, 1)
    case Fail => Fail
    case Got(v, p) =>
      if v == 0 then Got(16, p)
      else
        match ReadNumber(bits, p, 3)
        case Fail => Fail
        case Got(n, p1) =>
          if n != 0 then Got(17 + n, p1)
          else
            match ReadNumber(bits, p1, 3)
            case Fail => Fail
            case Got(m, p2) => if m == 0 then Got(17, p2) else if m == 1 then Fail else Got(8 + m, p2)
  }

  // ---------- section 5: insert and copy lengths ----------

  /** The first insert code and the first copy code of each cell of 64 symbols. */
  function CellCodes(cell: nat): (nat, nat)
    requires cell < 11
  {
    match cell
    case 0 => (0, 0)
    case 1 => (0, 8)
    case 2 => (0, 0)
    case 3 => (0, 8)
    case 4 => (8, 0)
    case 5 => (8, 8)
    case 6 => (0, 16)
    case 7 => (16, 0)
    case 8 => (8, 16)
    case 9 => (16, 8)
    case _ => (16, 16)
  }

  function InsertCode(symbol: nat): nat
    requires symbol < 704
  {
    CellCodes(symbol / 64).0 + symbol % 64 / 8
  }

  function CopyCode(symbol: nat): nat
    requires symbol < 704
  {
    CellCodes(symbol / 64).1 + symbol % 8
  }

  function CopyExtraBits(code: nat): nat {
    if code < 8 then 0
    else if code < 10 then 1
    else if code < 12 then 2
    else if code < 14 then 3
    else if code < 16 then 4
    else if code < 18 then 5
    else if code == 18 then 6
    else if code == 19 then 7
    else if code == 20 then 8
    else if code == 21 then 9
    else if code == 22 then 10
    else 24
  }

  function CopyBase(code: nat): nat {
    if code < 8 then code + 2
    else if code == 8 then 10
    else if code == 9 then 12
    else if code == 10 then 14
    else if code == 11 then 18
    else if code == 12 then 22
    else if code == 13 then 30
    else if code == 14 then 38
    else if code == 15 then 54
    else if code == 16 then 70
    else if code == 17 then 102
    else if code == 18 then 134
    else if code == 19 then 198
    else if code == 20 then 326
    else if code == 21 then 582
    else if code == 22 then 1094
    else 2118
  }

  // ---------- section 4: distances, without direct codes ----------

  function DistanceExtraBits(code: nat, postfix: nat): (n: nat)
    requires code >= 16
    ensures n >= 1
  {
    1 + Shr(code - 16, postfix + 1)
  }

  function DistanceOffset(high: nat, extraBits: nat): nat
    requires extraBits >= 1
  {
    ShlGrows(2 + high % 2, extraBits - 1);
    Shl(2 + high % 2, extraBits) - 4
  }

  function DistanceOf(code: nat, extra: nat, postfix: nat): nat
    requires code >= 16
  {
    var offset := DistanceOffset(Shr(code - 16, postfix), DistanceExtraBits(code, postfix));
    Shl(offset + extra, postfix) + LowBits(code - 16, postfix) + 1
  }

  /** Bits that a symbol of the distance alphabet takes. */
  function DistanceAlphabetBits(postfix: nat): nat {
    if postfix == 0 then 6 else if postfix == 1 then 7 else if postfix == 2 then 8 else 9
  }

  /** Enough bits for all 16 + 48 * 2^postfix symbols, and no more. */
  lemma AlphabetBitsExact(postfix: nat)
    requires postfix <= 3
    ensures Pow2(DistanceAlphabetBits(postfix) - 1) < 16 + Shl(48, postfix) <= Pow2(DistanceAlphabetBits(postfix))
  {
    SmallPowers();
    SmallShifts(48);
  }

  // ---------- section 9.2: meta-blocks ----------

  /** ISLAST clear, then MLEN; the highest nibble of more than four must not be zero. None for an empty meta-block. */
  function ReadLength(bits: seq<bool>, pos: nat): Parse<Option<nat>> {
    match ReadNumber(bits, pos, 2)
    case Fail => Fail
    case Got(code, p) =>
      if code == 3 then
        match Expect(bits, p, 3, 0)
        case Fail => Fail
        case Got(_, p1) =>
          (match SkipPadding(bits, p1)
           case Fail => Fail
           case Got(_, p2) => Got(None, p2))
      else
        match ReadNumber(bits, p, 4 * (4 + code))
        case Fail => Fail
        case Got(v, p1) => if code > 0 && v < Pow2(4 * (3 + code)) then Fail else Got(Some(v + 1), p1)
  }

  /** One block type of each kind, no direct distances, one tree of each kind; gives the postfix bits. */
  function ReadBlockTypes(bits: seq<bool>, pos: nat): Parse<nat> {
    match Expect(bits, pos, 3, 0)
    case Fail => Fail
    case Got(_, p) =>
      match ReadNumber(bits, p, 2)
      case Fail => Fail
      case Got(postfix, p1) =>
        match Expect(bits, p1, 8, 0)
        case Fail => Fail
        case Got(_, p2) => Got(postfix, p2)
  }

  /** A prefix code with a single symbol. */
  function ReadSimpleTree(bits: seq<bool>, pos: nat, width: nat): Parse<nat> {
    match Expect(bits, pos, 4, 1)
    case Fail => Fail
    case Got(_, p) => ReadNumber(bits, p, width)
  }

  /** The trees of a compressed meta-block that only copies: the symbols for copies and for distances. */
  function ReadTrees(bits: seq<bool>, pos: nat, postfix: nat): Parse<(nat, nat)> {
    match ReadSimpleTree(bits, pos, 8)
    case Fail => Fail
    case Got(_, p) =>
      match ReadSimpleTree(bits, p, 10)
      case Fail => Fail
      case Got(copy, p1) =>
        match ReadSimpleTree(bits, p1, DistanceAlphabetBits(postfix))
        case Fail => Fail
        case Got(distance, p2) => Got((copy, distance), p2)
  }

  /** One command: nothing inserted, and a copy of all `length` bytes at an explicit distance. */
  function ReadCommand(bits: seq<bool>, pos: nat, postfix: nat, symbol: nat, code: nat, length: nat): Parse<MetaBlock> {
    if symbol < 128 || symbol >= 704 || InsertCode(symbol) != 0 || code < 16 then Fail
    else
      match ReadNumber(bits, pos, CopyExtraBits(CopyCode(symbol)))
      case Fail => Fail
      case Got(extra, p) =>
        if CopyBase(CopyCode(symbol)) + extra != length then Fail
        else
          match ReadNumber(bits, p, DistanceExtraBits(code, postfix))
          case Fail => Fail
          case Got(dextra, p1) => Got(Copy(length, DistanceOf(code, dextra, postfix)), p1)
  }

  function ReadCompressed(bits: seq<bool>, pos: nat, length: nat): Parse<MetaBlock> {
    match ReadBlockTypes(bits, pos)
    case Fail => Fail
    case Got(postfix, p) =>
      match ReadTrees(bits, p, postfix)
      case Fail => Fail
      case Got(symbols, p1) => ReadCommand(bits, p1, postfix, symbols.0, symbols.1, length)
  }

  function ReadUncompressed(bits: seq<bool>, pos: nat, length: nat): Parse<MetaBlock> {
    match SkipPadding(bits, pos)
    case Fail => Fail
    case Got(_, p) =>
      match ReadBytes(bits, p, length)
      case Fail => Fail
      case Got(bytes, p1) => Got(Uncompressed(bytes), p1)
  }

  function ReadData(bits: seq<bool>, pos: nat, length: nat): Parse<MetaBlock> {
    match ReadNumber(bits, pos, 1)
    case Fail => Fail
    case Got(uncompressed, p) =>
      if uncompressed == 1 then ReadUncompressed(bits, p, length) else ReadCompressed(bits, p, length)
  }

  function ReadBlock(bits: seq<bool>, pos: nat): Parse<MetaBlock> {
    match ReadNumber(bits, pos, 1)
    case Fail => Fail
    case Got(last, p) =>
      if last == 1 then
        match Expect(bits, p, 1, 1)
        case Fail => Fail
        case Got(_, p1) =>
          (match SkipPadding(bits, p1)
           case Fail => Fail
           case Got(_, p2) => Got(End, p2))
      else
        match ReadLength(bits, p)
        case Fail => Fail
        case Got(length, p1) => if length.None? then Got(Skip, p1) else ReadData(bits, p1, length.value)
  }

  /** Reading from `pos` gives these meta-blocks and ends at `end`. */
  ghost predicate Reads(bits: seq<bool>, pos: nat, blocks: seq<MetaBlock>, end: nat)
    decreases |blocks|
  {
    if blocks == [] then pos == end
    else
      var first := ReadBlock(bits, pos);
      first.Got? && first.value == blocks[0] && Reads(bits, first.pos, blocks[1..], end)
  }

  // ---------- what meta-blocks stand for ----------

  function Least(a: nat, b: nat): nat {
    if a <= b then a else b
  }

  /** Distances beyond what the window holds lead back into the dictionary, whose end comes just before. */
  function Execute(block: MetaBlock, dictionary: seq<nat>, window: nat, output: seq<nat>): Option<seq<nat>> {
    match block
    case Skip => Some(output)
    case End => Some(output)
    case Uncompressed(bytes) => Some(output + bytes)
    case Copy(length, distance) =>
      var back := Least(window, |output|);
      if back < distance <= |dictionary| + back && |dictionary| + back - distance + length <= |dictionary|
      then Some(output + dictionary[|dictionary| + back - distance..][..length])
      else None
  }

  function ExecuteAll(blocks: seq<MetaBlock>, dictionary: seq<nat>, window: nat, output: seq<nat>): Option<seq<nat>> {
    if blocks == [] then Some(output)
    else
      var first := Execute(blocks[0], dictionary, window, output);
      if first.None? then None else ExecuteAll(blocks[1..], dictionary, window, first.value)
  }

  lemma {:induction false} ExecuteConcat(a: seq<MetaBlock>, b: seq<MetaBlock>, dictionary: seq<nat>, window: nat, output: seq<nat>)
    requires ExecuteAll(a, dictionary, window, output).Some?
    ensures ExecuteAll(a + b, dictionary, window, output) == ExecuteAll(b, dictionary, window, ExecuteAll(a, dictionary, window, output).value)
  {
    if a == [] {
      assert a + b == b;
    } else {
      var first := Execute(a[0], dictionary, window, output);
      ExecuteConcat(a[1..], b, dictionary, window, first.value);
      assert (a + b)[1..] == a[1..] + b;
    }
  }

  // ---------- reading inside a longer stream ----------

  /** The bits a are found in b, from a byte boundary on. */
  ghost predicate Embeds(a: seq<bool>, b: seq<bool>, k: nat) {
    k % 8 == 0 && k + |a| <= |b| && b[k..k + |a|] == a
  }

  ghost function Moved<T>(r: Parse<T>, k: nat): Parse<T> {
    match r
    case Fail => Fail
    case Got(v, p) => Got(v, p + k)
  }

  lemma SliceMoves(a: seq<bool>, b: seq<bool>, k: nat, lo: nat, hi: nat)
    requires Embeds(a, b, k) && lo <= hi <= |a|
    ensures b[lo + k..hi + k] == a[lo..hi]
  {
    var x, y := b[lo + k..hi + k], a[lo..hi];
    forall i | 0 <= i < hi - lo ensures x[i] == y[i] {
      assert y[i] == a[lo + i] == b[k..k + |a|][lo + i] == b[k + (lo + i)];
      assert x[i] == b[lo + k + i];
    }
  }

  lemma NumberMoves(a: seq<bool>, b: seq<bool>, k: nat, pos: nat, n: nat)
    requires Embeds(a, b, k) && ReadNumber(a, pos, n).Got?
    ensures ReadNumber(b, pos + k, n) == Moved(ReadNumber(a, pos, n), k)
  {
    SliceMoves(a, b, k, pos, pos + n);
  }

  lemma ExpectMoves(a: seq<bool>, b: seq<bool>, k: nat, pos: nat, n: nat, value: nat)
    requires Embeds(a, b, k) && Expect(a, pos, n, value).Got?
    ensures Expect(b, pos + k, n, value) == Moved(Expect(a, pos, n, value), k)
  {
    NumberMoves(a, b, k, pos, n);
  }

  lemma PaddingMoves(a: seq<bool>, b: seq<bool>, k: nat, pos: nat)
    requires Embeds(a, b, k) && SkipPadding(a, pos).Got?
    ensures SkipPadding(b, pos + k) == Moved(SkipPadding(a, pos), k)
  {
    hide ReadNumber, Expect, Padding;
    SamePadding(pos, k);
    ExpectMoves(a, b, k, pos, Padding(pos), 0);
  }

  lemma SamePadding(pos: nat, k: nat)
    requires k % 8 == 0
    ensures Padding(pos + k) == Padding(pos)
  {
    assert (pos + k) % 8 == pos % 8;
  }

  lemma BytesMove(a: seq<bool>, b: seq<bool>, k: nat, pos: nat, n: nat)
    requires Embeds(a, b, k) && ReadBytes(a, pos, n).Got?
    ensures ReadBytes(b, pos + k, n) == Moved(ReadBytes(a, pos, n), k)
  {
    var x, y := ReadBytes(a, pos, n).value, ReadBytes(b, pos + k, n).value;
    forall i | 0 <= i < n ensures y[i] == x[i] {
      SliceMoves(a, b, k, pos + 8 * i, pos + 8 * i + 8);
    }
    assert x == y;
  }

  lemma WindowBitsMove(a: seq<bool>, b: seq<bool>, pos: nat)
    requires Embeds(a, b, 0) && ReadWindowBits(a, pos).Got?
    ensures ReadWindowBits(b, pos) == ReadWindowBits(a, pos)
  {
    hide ReadNumber, Embeds;
    NumberMoves(a, b, 0, pos, 1);
    var r := ReadNumber(a, pos, 1);
    if r.value != 0 {
      NumberMoves(a, b, 0, r.pos, 3);
      var s := ReadNumber(a, r.pos, 3);
      if s.value == 0 {
        NumberMoves(a, b, 0, s.pos, 3);
      }
    }
  }

  lemma LengthMoves(a: seq<bool>, b: seq<bool>, k: nat, pos: nat)
    requires Embeds(a, b, k) && ReadLength(a, pos).Got?
    ensures ReadLength(b, pos + k) == Moved(ReadLength(a, pos), k)
  {
    hide ReadNumber, Embeds, Expect, SkipPadding, Pow2;
    NumberMoves(a, b, k, pos, 2);
    var r := ReadNumber(a, pos, 2);
    if r.value == 3 {
      ExpectMoves(a, b, k, r.pos, 3, 0);
      PaddingMoves(a, b, k, Expect(a, r.pos, 3, 0).pos);
    } else {
      NumberMoves(a, b, k, r.pos, 4 * (4 + r.value));
    }
  }

  lemma BlockTypesMove(a: seq<bool>, b: seq<bool>, k: nat, pos: nat)
    requires Embeds(a, b, k) && ReadBlockTypes(a, pos).Got?
    ensures ReadBlockTypes(b, pos + k) == Moved(ReadBlockTypes(a, pos), k)
  {
    hide ReadNumber, Embeds, Expect;
    ExpectMoves(a, b, k, pos, 3, 0);
    var p := Expect(a, pos, 3, 0).pos;
    NumberMoves(a, b, k, p, 2);
    ExpectMoves(a, b, k, ReadNumber(a, p, 2).pos, 8, 0);
  }

  lemma SimpleTreeMoves(a: seq<bool>, b: seq<bool>, k: nat, pos: nat, width: nat)
    requires Embeds(a, b, k) && ReadSimpleTree(a, pos, width).Got?
    ensures ReadSimpleTree(b, pos + k, width) == Moved(ReadSimpleTree(a, pos, width), k)
  {
    hide ReadNumber, Embeds, Expect;
    ExpectMoves(a, b, k, pos, 4, 1);
    NumberMoves(a, b, k, Expect(a, pos, 4, 1).pos, width);
  }

  lemma TreesMove(a: seq<bool>, b: seq<bool>, k: nat, pos: nat, postfix: nat)
    requires Embeds(a, b, k) && ReadTrees(a, pos, postfix).Got?
    ensures ReadTrees(b, pos + k, postfix) == Moved(ReadTrees(a, pos, postfix), k)
  {
    hide ReadSimpleTree, Embeds, DistanceAlphabetBits;
    SimpleTreeMoves(a, b, k, pos, 8);
    var p := ReadSimpleTree(a, pos, 8).pos;
    SimpleTreeMoves(a, b, k, p, 10);
    var p1 := ReadSimpleTree(a, p, 10).pos;
    SimpleTreeMoves(a, b, k, p1, DistanceAlphabetBits(postfix));
  }

  lemma CommandMoves(a: seq<bool>, b: seq<bool>, k: nat, pos: nat, postfix: nat, symbol: nat, code: nat, length: nat)
    requires Embeds(a, b, k) && ReadCommand(a, pos, postfix, symbol, code, length).Got?
    ensures ReadCommand(b, pos + k, postfix, symbol, code, length) == Moved(ReadCommand(a, pos, postfix, symbol, code, length), k)
  {
    hide ReadNumber, Embeds, CopyExtraBits, CopyCode, InsertCode, CopyBase, DistanceExtraBits, DistanceOf;
    NumberMoves(a, b, k, pos, CopyExtraBits(CopyCode(symbol)));
    NumberMoves(a, b, k, ReadNumber(a, pos, CopyExtraBits(CopyCode(symbol))).pos, DistanceExtraBits(code, postfix));
  }

  lemma DataMoves(a: seq<bool>, b: seq<bool>, k: nat, pos: nat, length: nat)
    requires Embeds(a, b, k) && ReadData(a, pos, length).Got?
    ensures ReadData(b, pos + k, length) == Moved(ReadData(a, pos, length), k)
  {
    hide ReadNumber, Embeds, ReadBlockTypes, ReadTrees, ReadCommand, SkipPadding, ReadBytes;
    NumberMoves(a, b, k, pos, 1);
    var r := ReadNumber(a, pos, 1);
    if r.value == 1 {
      PaddingMoves(a, b, k, r.pos);
      BytesMove(a, b, k, SkipPadding(a, r.pos).pos, length);
    } else {
      BlockTypesMove(a, b, k, r.pos);
      var t := ReadBlockTypes(a, r.pos);
      TreesMove(a, b, k, t.pos, t.value);
      var s := ReadTrees(a, t.pos, t.value);
      CommandMoves(a, b, k, s.pos, t.value, s.value.0, s.value.1, length);
    }
  }

  /** What is read from bits is read from them inside a longer stream, too. */
  lemma BlockMoves(a: seq<bool>, b: seq<bool>, k: nat, pos: nat)
    requires Embeds(a, b, k) && ReadBlock(a, pos).Got?
    ensures ReadBlock(b, pos + k) == Moved(ReadBlock(a, pos), k)
  {
    hide ReadNumber, Embeds, Expect, SkipPadding, ReadLength, ReadData;
    NumberMoves(a, b, k, pos, 1);
    var r := ReadNumber(a, pos, 1);
    if r.value == 1 {
      ExpectMoves(a, b, k, r.pos, 1, 1);
      PaddingMoves(a, b, k, Expect(a, r.pos, 1, 1).pos);
    } else {
      LengthMoves(a, b, k, r.pos);
      var l := ReadLength(a, r.pos);
      if l.value.Some? {
        DataMoves(a, b, k, l.pos, l.value.value);
      }
    }
  }

  lemma {:induction false} ReadsMove(a: seq<bool>, b: seq<bool>, k: nat, pos: nat, blocks: seq<MetaBlock>, end: nat)
    requires Embeds(a, b, k) && Reads(a, pos, blocks, end)
    ensures Reads(b, pos + k, blocks, end + k)
    decreases |blocks|
  {
    hide ReadBlock, Embeds;
    if blocks != [] {
      BlockMoves(a, b, k, pos);
      ReadsMove(a, b, k, ReadBlock(a, pos).pos, blocks[1..], end);
    }
  }

  lemma {:induction false} ReadsConcat(bits: seq<bool>, pos: nat, a: seq<MetaBlock>, middle: nat, b: seq<MetaBlock>, end: nat)
    requires Reads(bits, pos, a, middle) && Reads(bits, middle, b, end)
    ensures Reads(bits, pos, a + b, end)
    decreases |a|
  {
    hide ReadBlock;
    if a == [] {
      assert a + b == b;
    } else {
      ReadsConcat(bits, ReadBlock(bits, pos).pos, a[1..], middle, b, end);
      assert (a + b)[1..] == a[1..] + b && (a + b)[0] == a[0];
    }
  }

  /** A meta-block that was written after others is read after them. */
  lemma ReadsOneMore(a: seq<bool>, b: seq<bool>, pos: nat, blocks: seq<MetaBlock>, block: MetaBlock)
    requires Embeds(a, b, 0) && Reads(a, pos, blocks, |a|) && ReadBlock(b, |a|) == Got(block, |b|)
    ensures Reads(b, pos, blocks + [block], |b|)
  {
    hide ReadBlock;
    ReadsMove(a, b, 0, pos, blocks, |a|);
    assert Reads(b, |b|, [], |b|);
    assert [block][1..] == [];
    assert Reads(b, |a|, [block], |b|);
    ReadsConcat(b, pos, blocks, |a|, [block], |b|);
  }

  // ---------- reading what was just written ----------

  lemma NumberRead(bits: seq<bool>, x: nat, n: nat)
    requires x < Pow2(n)
    ensures ReadNumber(bits + NumberBits(x, n), |bits|, n) == Got(x, |bits| + n)
  {
    assert (bits + NumberBits(x, n))[|bits|..|bits| + n] == NumberBits(x, n);
    BitsNumberBits(x, n);
    LowBitsSmall(x, n);
  }

  lemma EmbedsMore(a: seq<bool>, more: seq<bool>)
    ensures Embeds(a, a + more, 0)
  {
  }

  lemma EmbedsTrans(a: seq<bool>, b: seq<bool>, c: seq<bool>)
    requires Embeds(a, b, 0) && Embeds(b, c, 0)
    ensures Embeds(a, c, 0)
  {
    assert c[0..|a|] == c[0..|b|][0..|a|];
  }

  lemma PaddingRead(bits: seq<bool>)
    ensures SkipPadding(bits + Zeros(Padding(|bits|)), |bits|) == Got((), |bits| + Padding(|bits|))
  {
    var n := Padding(|bits|);
    BitsOfZero(n);
    NumberRead(bits, 0, n);
  }

  lemma {:induction false} BytesRead(bits: seq<bool>, bytes: seq<Byte>)
    ensures ReadBytes(bits + BytesBits(bytes), |bits|, |bytes|) == Got(bytes, |bits| + 8 * |bytes|)
  {
    var all := bits + BytesBits(bytes);
    forall i | 0 <= i < |bytes| ensures BitsNumber(all[|bits| + 8 * i..|bits| + 8 * i + 8]) == bytes[i] {
      ByteRead(bytes, i);
      assert all[|bits| + 8 * i..|bits| + 8 * i + 8] == BytesBits(bytes)[8 * i..8 * i + 8];
    }
    assert ReadBytes(all, |bits|, |bytes|).value == bytes;
  }

  lemma {:induction false} ByteRead(bytes: seq<Byte>, i: nat)
    requires i < |bytes|
    ensures BitsNumber(BytesBits(bytes)[8 * i..8 * i + 8]) == bytes[i]
    decreases |bytes|
  {
    var last := |bytes| - 1;
    var front := BytesBits(bytes[..last]);
    assert BytesBits(bytes) == front + NumberBits(bytes[last], 8);
    if i == last {
      assert BytesBits(bytes)[8 * i..8 * i + 8] == NumberBits(bytes[last], 8);
      BitsNumberBits(bytes[last], 8);
      SmallPowers();
      LowBitsSmall(bytes[last], 8);
    } else {
      ByteRead(bytes[..last], i);
      assert BytesBits(bytes)[8 * i..8 * i + 8] == front[8 * i..8 * i + 8];
    }
  }
}
