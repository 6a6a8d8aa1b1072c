/** The byte form of a sparse bit set: a header byte, then nodes of 2, 4, 8 or 32 bits packed from the low bits up.
    `BitOutputBuffer` writes it node by node, `BitInputBuffer` reads it back. */
module BitBuffers {
  import opened Bits
  import opened BranchFactors

  type Byte = x: nat | x < 256

  // ---------- what the bytes mean ----------

  ghost predicate WordsFit(bf: BranchFactor, words: seq<nat>) {
    forall i :: 0 <= i < |words| ==> words[i] < bf.WordLimit()
  }

  /** Bytes needed for `n` nodes. */
  function PackedLength(bf: BranchFactor, n: nat): nat {
    match bf
    case BF2 => (n + 3) / 4
    case BF4 => (n + 1) / 2
    case BF8 => n
    case BF32 => 4 * n
  }

  ghost function WordOrZero(words: seq<nat>, i: nat): nat {
    if i < |words| then words[i] else 0
  }

  /** Byte `j` of a 32 bit number, lowest first. */
  function ByteOf(w: nat, j: nat): Byte {
    if j == 0 then w % 256 else if j == 1 then w / 256 % 256 else if j == 2 then w / 65536 % 256 else w / 16777216 % 256
  }

  ghost function PackedByte(bf: BranchFactor, words: seq<nat>, i: nat): Byte
    requires WordsFit(bf, words)
  {
    match bf
    case BF2 => WordOrZero(words, 4 * i) + 4 * WordOrZero(words, 4 * i + 1)
                + 16 * WordOrZero(words, 4 * i + 2) + 64 * WordOrZero(words, 4 * i + 3)
    case BF4 => WordOrZero(words, 2 * i) + 16 * WordOrZero(words, 2 * i + 1)
    case BF8 => WordOrZero(words, i)
    case BF32 => ByteOf(WordOrZero(words, i / 4), i % 4)
  }

  ghost function Pack(bf: BranchFactor, words: seq<nat>): seq<Byte>
    requires WordsFit(bf, words)
  {
    seq(PackedLength(bf, |words|), i requires 0 <= i => PackedByte(bf, words, i))
  }

  /** How many whole nodes `n` bytes hold. */
  function WordCount(bf: BranchFactor, n: nat): nat {
    match bf
    case BF2 => 4 * n
    case BF4 => 2 * n
    case BF8 => n
    case BF32 => n / 4
  }

  function FourBytes(b0: nat, b1: nat, b2: nat, b3: nat): nat {
    b0 + 256 * b1 + 65536 * b2 + 16777216 * b3
  }

  /** The i-th node of the bytes that follow the header. */
  function WordAt(bf: BranchFactor, data: seq<Byte>, i: nat): nat
    requires i < WordCount(bf, |data|)
  {
    match bf
    case BF2 =>
      var b := data[i / 4];
      var j := i % 4;
      if j == 0 then b % 4 else if j == 1 then b / 4 % 4 else if j == 2 then b / 16 % 4 else b / 64
    case BF4 => if i % 2 == 0 then data[i / 2] % 16 else data[i / 2] / 16
    case BF8 => data[i]
    case BF32 => FourBytes(data[4 * i], data[4 * i + 1], data[4 * i + 2], data[4 * i + 3])
  }

  ghost function Unpack(bf: BranchFactor, data: seq<Byte>): seq<nat> {
    seq(WordCount(bf, |data|), i requires 0 <= i < WordCount(bf, |data|) => WordAt(bf, data, i))
  }

  /** Reading packed nodes back gives the nodes, whatever bytes follow them. */
  lemma UnpackPack(bf: BranchFactor, words: seq<nat>, rest: seq<Byte>)
    requires WordsFit(bf, words)
    ensures |words| <= |Unpack(bf, Pack(bf, words) + rest)|
    ensures Unpack(bf, Pack(bf, words) + rest)[..|words|] == words
    ensures (Pack(bf, words) + rest)[PackedLength(bf, |words|)..] == rest
  {
    var data := Pack(bf, words) + rest;
    forall i | 0 <= i < |words|
      ensures i < WordCount(bf, |data|) && WordAt(bf, data, i) == words[i]
    {
      match bf
      case BF2 => ReadBackPair(words, rest, i);
      case BF4 => ReadBackNibble(words, rest, i);
      case BF8 =>
      case BF32 => ReadBackWord(words, rest, i);
    }
  }

  lemma ReadBackPair(words: seq<nat>, rest: seq<Byte>, i: nat)
    requires WordsFit(BF2, words) && i < |words|
    ensures i < WordCount(BF2, |Pack(BF2, words) + rest|)
    ensures WordAt(BF2, Pack(BF2, words) + rest, i) == words[i]
  {
    var b := (Pack(BF2, words) + rest)[i / 4];
    assert b == PackedByte(BF2, words, i / 4);
    var j := 4 * (i / 4);
    assert i == j + i % 4;
    var w0, w1, w2, w3 := WordOrZero(words, j), WordOrZero(words, j + 1), WordOrZero(words, j + 2), WordOrZero(words, j + 3);
    PairsOfByte(w0, w1, w2, w3);
  }

  lemma PairsOfByte(w0: nat, w1: nat, w2: nat, w3: nat)
    requires w0 < 4 && w1 < 4 && w2 < 4 && w3 < 4
    ensures var b := w0 + 4 * w1 + 16 * w2 + 64 * w3;
            b % 4 == w0 && b / 4 % 4 == w1 && b / 16 % 4 == w2 && b / 64 == w3
  {
    var b := w0 + 4 * w1 + 16 * w2 + 64 * w3;
    assert b / 4 == w1 + 4 * w2 + 16 * w3;
    assert b / 16 == w2 + 4 * w3;
  }

  lemma ReadBackNibble(words: seq<nat>, rest: seq<Byte>, i: nat)
    requires WordsFit(BF4, words) && i < |words|
    ensures i < WordCount(BF4, |Pack(BF4, words) + rest|)
    ensures WordAt(BF4, Pack(BF4, words) + rest, i) == words[i]
  {
    assert (Pack(BF4, words) + rest)[i / 2] == PackedByte(BF4, words, i / 2);
    assert i == 2 * (i / 2) + i % 2;
  }

  lemma ReadBackWord(words: seq<nat>, rest: seq<Byte>, i: nat)
    requires WordsFit(BF32, words) && i < |words|
    ensures i < WordCount(BF32, |Pack(BF32, words) + rest|)
    ensures WordAt(BF32, Pack(BF32, words) + rest, i) == words[i]
  {
    var data := Pack(BF32, words) + rest;
    var w := words[i];
    assert data[4 * i] == PackedByte(BF32, words, 4 * i) == ByteOf(w, 0);
    assert data[4 * i + 1] == PackedByte(BF32, words, 4 * i + 1) == ByteOf(w, 1);
    assert data[4 * i + 2] == PackedByte(BF32, words, 4 * i + 2) == ByteOf(w, 2);
    assert data[4 * i + 3] == PackedByte(BF32, words, 4 * i + 3) == ByteOf(w, 3);
    BytesOfWord(w);
  }

  lemma BytesOfWord(w: nat)
    requires w < U32_LIMIT
    ensures ByteOf(w, 0) == w % 256
    ensures ByteOf(w, 1) == w / 256 % 256
    ensures ByteOf(w, 2) == w / 256 / 256 % 256
    ensures ByteOf(w, 3) == w / 256 / 256 / 256 % 256
    ensures FourBytes(ByteOf(w, 0), ByteOf(w, 1), ByteOf(w, 2), ByteOf(w, 3)) == w
  {
  }

  /** The nodes follow one another from the lowest bits of the first byte on: bit j of node i is bit size * i + j. */
  lemma NodeBits(bf: BranchFactor, data: seq<Byte>, i: nat, j: nat)
    requires i < WordCount(bf, |data|) && j < bf.NodeSize()
    ensures var p := bf.NodeSize() * i + j;
            p / 8 < |data| && (Bit(WordAt(bf, data, i), j) <==> Bit(data[p / 8], p % 8))
  {
    hide Bit;
    BitPlaces(i, j);
    match bf
    case BF2 => PairBits(data[i / 4], i % 4, j);
    case BF4 => NibbleBits(data[i / 2], i % 2, j);
    case BF8 =>
    case BF32 => WordBits(data[4 * i], data[4 * i + 1], data[4 * i + 2], data[4 * i + 3], j);
  }

  /** In which byte, and where in it, the bits of a node are. */
  lemma BitPlaces(i: nat, j: nat)
    ensures j < 2 ==> (2 * i + j) / 8 == i / 4 && (2 * i + j) % 8 == 2 * (i % 4) + j
    ensures j < 4 ==> (4 * i + j) / 8 == i / 2 && (4 * i + j) % 8 == 4 * (i % 2) + j
    ensures j < 8 ==> (8 * i + j) / 8 == i && (8 * i + j) % 8 == j
    ensures (32 * i + j) / 8 == 4 * i + j / 8 && (32 * i + j) % 8 == j % 8
  {
  }

  lemma PairBits(b: Byte, t: nat, j: nat)
    requires t < 4 && j < 2
    ensures var pair := if t == 0 then b % 4 else if t == 1 then b / 4 % 4 else if t == 2 then b / 16 % 4 else b / 64;
            Bit(pair, j) <==> Bit(b, 2 * t + j)
  {
    ShrPair(b, t);
    ShrShr(b, 2 * t, j);
    var x := Shr(b, 2 * t);
    SmallShifts(x / 4);
    assert Pow2(2) == 4;
    BitOfParts(x % 4, x / 4, 2, j);
  }

  lemma NibbleBits(b: Byte, t: nat, j: nat)
    requires t < 2 && j < 4
    ensures Bit(if t == 0 then b % 16 else b / 16, j) <==> Bit(b, 4 * t + j)
  {
    SmallShifts(b / 16);
    assert Pow2(4) == 16;
    BitOfParts(b % 16, b / 16, 4, j);
    BitOfParts(b % 16, b / 16, 4, 4 + j);
  }

  lemma WordBits(b0: Byte, b1: Byte, b2: Byte, b3: Byte, j: nat)
    requires j < 32
    ensures Bit(FourBytes(b0, b1, b2, b3), j) <==>
              Bit(if j < 8 then b0 else if j < 16 then b1 else if j < 24 then b2 else b3, j % 8)
  {
    var x3, x2, x1 := b3, b2 + 256 * b3, b1 + 256 * (b2 + 256 * b3);
    ByteBits(b0, x1, j);
    if j >= 8 {
      ByteBits(b1, x2, j - 8);
      if j >= 16 {
        ByteBits(b2, x3, j - 16);
      }
    }
  }

  lemma ByteBits(b: Byte, high: nat, i: nat)
    ensures Bit(b + 256 * high, i) <==> if i < 8 then Bit(b, i) else Bit(high, i - 8)
  {
    SmallPowers();
    assert Shl(high, 8) == 256 * high by {
      SmallShifts(high);
      assert Shl(high, 6) == 64 * high;
      assert Shl(high, 8) == 2 * Shl(high, 7) == 4 * Shl(high, 6);
    }
    BitOfParts(b, high, 8, i);
  }

  // ---------- the header ----------

  /** EncodeFirstByte: `result |= depth << 2` in eight bits. */
  function EncodeFirstByte(bf: BranchFactor, depth: nat): Byte {
    BitOr(bf.Code(), Shl(depth, 2)) % 256
  }

  function DecodeBranchFactor(first: Byte): BranchFactor {
    BranchFactor.FromCode(first % 4)
  }

  /** DecodeDepth: bits 2 to 6; bit 7 is reserved. */
  function DecodeDepth(first: Byte): nat {
    first / 4 % 32
  }

  /** The node size that the two lowest bits of the first byte stand for, by the format. */
  function SizeOfCode(c: nat): nat {
    if c == 0 then 2 else if c == 1 then 4 else if c == 2 then 8 else 32
  }

  /** What the first byte says: the node size in its two lowest bits, and the depth in the five bits above. */
  lemma FirstByteMeans(first: Byte, i: nat)
    ensures DecodeBranchFactor(first).NodeSize() == SizeOfCode(first % 4)
    ensures Bit(DecodeDepth(first), i) <==> i < 5 && Bit(first, i + 2)
  {
    ShrOfZero(i);
    var d := first / 4;
    assert Shr(first, i + 2) == Shr(d, i) by {
      assert Shr(first, 2) == Shr(first / 2, 1) == d;
      ShrShr(first, 2, i);
    }
    LowFive(d, i);
  }

  lemma LowFive(d: nat, i: nat)
    ensures Bit(d % 32, i) <==> i < 5 && Bit(d, i)
  {
    SmallShifts(d / 32);
    SmallShifts(0);
    assert Pow2(5) == 32;
    BitOfParts(d % 32, d / 32, 5, i);
    BitOfParts(d % 32, 0, 5, i);
    if i >= 5 {
      ShrOfZero(i - 5);
    }
  }

  lemma HeaderRoundTrip(bf: BranchFactor, depth: nat)
    requires depth < 32
    ensures DecodeBranchFactor(EncodeFirstByte(bf, depth)) == bf
    ensures DecodeDepth(EncodeFirstByte(bf, depth)) == depth
    ensures EncodeFirstByte(bf, depth) < 128
  {
    hide BitOr, Shl, Pow2;
    var c := bf.Code();
    assert BitOr(c, Shl(depth, 2)) == c + 4 * depth by {
      SmallPowers();
      SmallShifts(depth);
      OrDisjoint(c, depth, 2);
    }
    FieldsOfByte(c, depth);
  }

  lemma FieldsOfByte(c: nat, d: nat)
    requires c < 4 && d < 32
    ensures (c + 4 * d) % 256 == c + 4 * d
    ensures (c + 4 * d) % 4 == c && (c + 4 * d) / 4 % 32 == d
  {
  }

  // ---------- writing ----------

  class BitOutputBuffer {
    const branchFactor: BranchFactor
    const depth: nat
    var buffer: seq<Byte>
    var currentPair: nat
    var firstNibble: bool
    ghost var words: seq<nat>

    ghost predicate Valid()
      reads this
    {
      && WordsFit(branchFactor, words)
      && buffer == [EncodeFirstByte(branchFactor, depth)] + Pack(branchFactor, words)
      && currentPair == (if branchFactor == BF2 then |words| % 4 else 0)
      && firstNibble == (branchFactor == BF4 ==> |words| % 2 == 0)
    }

    constructor (branchFactor: BranchFactor, depth: nat)
      ensures Valid() && words == [] && this.branchFactor == branchFactor && this.depth == depth
    {
      this.branchFactor := branchFactor;
      this.depth := depth;
      currentPair := 0;
      firstNibble := true;
      buffer := [EncodeFirstByte(branchFactor, depth)];
      words := [];
    }

    method Append(bits: U32)
      requires Valid()
      modifies this
      ensures Valid()
      ensures words == old(words) + [bits % branchFactor.WordLimit()]
    {
      match branchFactor {
        case BF2 => AppendBF2(bits);
        case BF4 => AppendBF4(bits);
        case BF8 => AppendBF8(bits);
        case BF32 => AppendBF32(bits);
      }
    }

    method AppendBF2(bits: U32)
      requires Valid() && branchFactor == BF2
      modifies this
      ensures Valid() && words == old(words) + [bits % 4]
    {
      hide Pack, WordsFit, EncodeFirstByte, BitOr, Shl;
      AppendPair(words, bits % 4);
      if currentPair == 0 {
        buffer := buffer + [bits % 4];
        currentPair := 1;
      } else {
        var last := |buffer| - 1;
        var twoBits := Shl(bits % 4, 2 * currentPair);
        ghost var packed := Pack(BF2, words);
        assert buffer[last] == packed[|packed| - 1];
        OrPair(buffer[last], bits % 4, currentPair);
        buffer := buffer[last := BitOr(buffer[last], twoBits)];
        currentPair := if currentPair == 3 then 0 else currentPair + 1;
      }
      words := words + [bits % 4];
    }

    method AppendBF4(bits: U32)
      requires Valid() && branchFactor == BF4
      modifies this
      ensures Valid() && words == old(words) + [bits % 16]
    {
      hide Pack, WordsFit, EncodeFirstByte;
      AppendNibble(words, bits % 16);
      if firstNibble {
        buffer := buffer + [bits % 16];
        firstNibble := false;
      } else {
        var last := |buffer| - 1;
        ghost var packed := Pack(BF4, words);
        assert buffer[last] == packed[|packed| - 1];
        buffer := buffer[last := OrNibble(buffer[last] % 16, bits % 16)];
        firstNibble := true;
      }
      words := words + [bits % 16];
    }

    method AppendBF8(bits: U32)
      requires Valid() && branchFactor == BF8
      modifies this
      ensures Valid() && words == old(words) + [bits % 256]
    {
      assert Pack(BF8, words + [bits % 256]) == Pack(BF8, words) + [bits % 256];
      buffer := buffer + [bits % 256];
      words := words + [bits % 256];
    }

    method AppendBF32(bits: U32)
      requires Valid() && branchFactor == BF32
      modifies this
      ensures Valid() && words == old(words) + [bits]
    {
      AppendWord(words, bits);
      BytesOfWord(bits);
      var rest := bits;
      buffer := buffer + [rest % 256];
      rest := rest / 256;
      buffer := buffer + [rest % 256];
      rest := rest / 256;
      buffer := buffer + [rest % 256];
      rest := rest / 256;
      buffer := buffer + [rest % 256];
      words := words + [bits];
    }
  }

  /** `low | high << 4` */
  function OrNibble(low: nat, high: nat): (r: Byte)
    requires low < 16 && high < 16
    ensures r == low + 16 * high
  {
    SmallPowers();
    SmallShifts(high);
    OrDisjoint(low, high, 4);
    BitOr(low, Shl(high, 4))
  }

  /** Two bits moved up by j pairs. */
  function ShiftedPair(pair: nat, j: nat): nat {
    if j == 0 then pair else if j == 1 then 4 * pair else if j == 2 then 16 * pair else 64 * pair
  }

  lemma OrPair(b: nat, pair: nat, j: nat)
    requires 1 <= j < 4 && pair < 4
    requires b < ShiftedPair(1, j)
    ensures BitOr(b, Shl(pair, 2 * j)) == b + ShiftedPair(pair, j) < 256
  {
    SmallPowers();
    SmallShifts(pair);
    OrDisjoint(b, pair, 2 * j);
  }

  // How one more node changes the packed bytes: it goes into the last byte or starts new ones.

  lemma AppendPair(words: seq<nat>, w: nat)
    requires WordsFit(BF2, words) && w < 4
    ensures WordsFit(BF2, words + [w])
    ensures |words| % 4 == 0 ==> Pack(BF2, words + [w]) == Pack(BF2, words) + [w]
    ensures |words| % 4 != 0 ==>
              var p := Pack(BF2, words);
              var j := |words| % 4;
              && |p| > 0 && p[|p| - 1] < ShiftedPair(1, j) && p[|p| - 1] + ShiftedPair(w, j) < 256
              && Pack(BF2, words + [w]) == p[|p| - 1 := p[|p| - 1] + ShiftedPair(w, j)]
  {
    var n := |words|;
    var p, q := Pack(BF2, words), Pack(BF2, words + [w]);
    forall i: nat | 4 * i + 4 <= n ensures q[i] == p[i] {
      assert q[i] == PackedByte(BF2, words + [w], i) && p[i] == PackedByte(BF2, words, i);
    }
    if n % 4 != 0 {
      var last := n / 4;
      assert last == |p| - 1 == |q| - 1;
      assert p[last] == PackedByte(BF2, words, last) && q[last] == PackedByte(BF2, words + [w], last);
    }
  }

  lemma AppendNibble(words: seq<nat>, w: nat)
    requires WordsFit(BF4, words) && w < 16
    ensures WordsFit(BF4, words + [w])
    ensures |words| % 2 == 0 ==> Pack(BF4, words + [w]) == Pack(BF4, words) + [w]
    ensures |words| % 2 != 0 ==>
              var p := Pack(BF4, words);
              && |p| > 0 && p[|p| - 1] < 16
              && Pack(BF4, words + [w]) == p[|p| - 1 := p[|p| - 1] + 16 * w]
  {
  }

  lemma AppendWord(words: seq<nat>, w: nat)
    requires WordsFit(BF32, words) && w < U32_LIMIT
    ensures WordsFit(BF32, words + [w])
    ensures Pack(BF32, words + [w]) == Pack(BF32, words) + [ByteOf(w, 0), ByteOf(w, 1), ByteOf(w, 2), ByteOf(w, 3)]
  {
    var n := |words|;
    var q, p := Pack(BF32, words + [w]), Pack(BF32, words);
    assert q[..4 * n] == p by {
      forall i: nat | i < 4 * n ensures q[i] == p[i] {
        assert WordOrZero(words + [w], i / 4) == WordOrZero(words, i / 4);
      }
    }
    assert q[4 * n..] == [ByteOf(w, 0), ByteOf(w, 1), ByteOf(w, 2), ByteOf(w, 3)] by {
      forall j: nat | j < 4 ensures q[4 * n..][j] == ByteOf(w, j) {
        assert (4 * n + j) / 4 == n && (4 * n + j) % 4 == j;
        assert q[4 * n..][j] == q[4 * n + j] == PackedByte(BF32, words + [w], 4 * n + j);
      }
    }
  }

  // ---------- reading ----------

  class BitInputBuffer {
    const branchFactor: BranchFactor
    const depth: nat
    const bits: seq<Byte>
    var currentByte: nat
    var currentPair: nat
    var firstNibble: bool
    ghost var position: nat  // nodes read so far

    ghost predicate Valid()
      reads this
      ensures Valid() ==> |bits| > 0 && position <= |Nodes()|
    {
      && |bits| > 0
      && position <= WordCount(branchFactor, |bits| - 1)
      && match branchFactor
         case BF2 => currentByte == 1 + position / 4 && currentPair == position % 4
         case BF4 => currentByte == 1 + position / 2 && firstNibble == (position % 2 == 0)
         case BF8 => currentByte == 1 + position
         case BF32 => currentByte == 1 + 4 * position
    }

    /** The nodes the input holds, were they all read. */
    ghost function Nodes(): seq<nat>
      requires |bits| > 0
    {
      Unpack(branchFactor, bits[1..])
    }

    constructor (bits: seq<Byte>)
      requires |bits| > 0
      ensures Valid() && position == 0 && this.bits == bits
      ensures branchFactor == DecodeBranchFactor(bits[0]) && depth == DecodeDepth(bits[0])
    {
      branchFactor := DecodeBranchFactor(bits[0]);
      depth := DecodeDepth(bits[0]);
      this.bits := bits;
      currentByte := 1;
      currentPair := 0;
      firstNibble := true;
      position := 0;
    }

    /** Reads the next node; fails, and reads nothing, when the bytes do not hold a whole one. */
    method Read() returns (ok: bool, out: nat)
      requires Valid()
      modifies this
      ensures Valid()
      ensures ok == (old(position) < WordCount(branchFactor, |bits| - 1))
      ensures ok ==> position == old(position) + 1 && out == WordAt(branchFactor, bits[1..], old(position))
      ensures !ok ==> position == old(position)
    {
      hide Shr;
      ok, out := false, 0;
      match branchFactor {
        case BF2 =>
          if currentByte >= |bits| {
            return;
          }
          ShrPair(bits[currentByte], currentPair);
          out := Shr(bits[currentByte], 2 * currentPair) % 4;
          currentPair := currentPair + 1;
          if currentPair == 4 {
            currentByte := currentByte + 1;
            currentPair := 0;
          }
        case BF4 =>
          if currentByte >= |bits| {
            return;
          }
          if firstNibble {
            out := bits[currentByte] % 16;
            firstNibble := false;
          } else {
            out := bits[currentByte] / 16;
            currentByte := currentByte + 1;
            firstNibble := true;
          }
        case BF8 =>
          if currentByte >= |bits| {
            return;
          }
          out := bits[currentByte];
          currentByte := currentByte + 1;
        case BF32 =>
          if currentByte + 3 >= |bits| {
            return;
          }
          out := FourBytes(bits[currentByte], bits[currentByte + 1], bits[currentByte + 2], bits[currentByte + 3]);
          currentByte := currentByte + 4;
      }
      ok := true;
      position := position + 1;
    }

    /** The bytes after the last one that was read from. */
    method Remaining() returns (rest: seq<Byte>)
      requires Valid()
      ensures 1 + PackedLength(branchFactor, position) <= |bits|
      ensures rest == bits[1 + PackedLength(branchFactor, position)..]
    {
      var extra := 0;
      match branchFactor {
        case BF2 =>
          extra := if currentPair > 0 then 1 else 0;
        case BF4 =>
          extra := if !firstNibble then 1 else 0;
        case BF8 =>
        case BF32 =>
      }
      rest := ClippedSubstr(bits, currentByte + extra);
    }
  }

  lemma ShrPair(b: Byte, j: nat)
    requires j < 4
    ensures Shr(b, 2 * j) % 4 == if j == 0 then b % 4 else if j == 1 then b / 4 % 4 else if j == 2 then b / 16 % 4 else b / 64
  {
    assert Shr(b, 2) == Shr(b / 2, 1) == b / 4;
    ShrShr(b, 2, 2);
    assert Shr(b / 4, 2) == Shr(b / 4 / 2, 1) == b / 16;
    ShrShr(b, 4, 2);
    assert Shr(b / 16, 2) == Shr(b / 16 / 2, 1) == b / 64;
  }

  function ClippedSubstr(s: seq<Byte>, pos: nat): seq<Byte> {
    if pos <= |s| then s[pos..] else []
  }
}
