/** Writing numbers bit by bit: the packing of section 1.5.1 of RFC 7932, lowest bit first. */
module BrotliBits {
  import opened Bits

  type Byte = x: nat | x < 256

  /** The lowest n bits of a number, lowest first. */
  function NumberBits(x: nat, n: nat): (r: seq<bool>)
    ensures |r| == n
  {
    if n == 0 then [] else [x % 2 == 1] + NumberBits(x / 2, n - 1)
  }

  function BitsNumber(b: seq<bool>): nat {
    if b == [] then 0 else (if b[0] then 1 else 0) + 2 * BitsNumber(b[1..])
  }

  /** Reading bits back gives the number that was written. */
  lemma {:induction false} BitsNumberBits(x: nat, n: nat)
    ensures BitsNumber(NumberBits(x, n)) == LowBits(x, n)
  {
    if n > 0 {
      BitsNumberBits(x / 2, n - 1);
      assert NumberBits(x, n)[1..] == NumberBits(x / 2, n - 1);
    }
  }

  lemma {:induction false} LowBitsSmall(x: nat, n: nat)
    requires x < Pow2(n)
    ensures LowBits(x, n) == x
  {
    if n > 0 {
      LowBitsSmall(x / 2, n - 1);
    }
  }

  lemma {:induction false} LowBitsLowBits(x: nat, a: nat, b: nat)
    requires b <= a
    ensures LowBits(LowBits(x, a), b) == LowBits(x, b)
  {
    if b > 0 {
      LowBitsLowBits(x / 2, a - 1, b - 1);
      assert LowBits(x, a) / 2 == LowBits(x / 2, a - 1);
    }
  }

  lemma {:induction false} LowBitsShl(x: nat, i: nat, n: nat)
    ensures LowBits(Shl(x, i), n + i) == Shl(LowBits(x, n), i)
  {
    if i > 0 {
      LowBitsShl(x, i - 1, n);
      assert Shl(x, i) / 2 == Shl(x, i - 1) && Shl(x, i) % 2 == 0;
    }
  }

  /** The bits of two numbers, one above the other. */
  lemma {:induction false} BitsOfSum(a: nat, b: nat, n: nat, m: nat)
    requires a < Pow2(n)
    ensures NumberBits(a + Shl(b, n), n + m) == NumberBits(a, n) + NumberBits(b, m)
  {
    if n == 0 {
      assert NumberBits(a, 0) + NumberBits(b, m) == NumberBits(b, m);
    } else {
      BitsOfSum(a / 2, b, n - 1, m);
      assert (a + Shl(b, n)) / 2 == a / 2 + Shl(b, n - 1);
      assert (a + Shl(b, n)) % 2 == a % 2;
      assert [a % 2 == 1] + (NumberBits(a / 2, n - 1) + NumberBits(b, m)) == NumberBits(a, n) + NumberBits(b, m);
    }
  }

  lemma {:induction false} BitsOfLow(x: nat, n: nat)
    ensures NumberBits(LowBits(x, n), n) == NumberBits(x, n)
  {
    if n > 0 {
      BitsOfLow(x / 2, n - 1);
      assert LowBits(x, n) / 2 == LowBits(x / 2, n - 1) && LowBits(x, n) % 2 == x % 2;
    }
  }

  /** Writing the first k bits and then the rest is writing all of them. */
  lemma {:induction false} BitsSplit(x: nat, k: nat, m: nat)
    ensures NumberBits(x, k + m) == NumberBits(x, k) + NumberBits(Shr(x, k), m)
  {
    if k == 0 {
      assert NumberBits(x, 0) + NumberBits(x, m) == NumberBits(x, m);
    } else {
      BitsSplit(x / 2, k - 1, m);
      assert [x % 2 == 1] + (NumberBits(x / 2, k - 1) + NumberBits(Shr(x / 2, k - 1), m)) == NumberBits(x, k) + NumberBits(Shr(x, k), m);
    }
  }

  function BytesBits(bytes: seq<Byte>): (r: seq<bool>)
    ensures |r| == 8 * |bytes|
  {
    if bytes == [] then [] else BytesBits(bytes[..|bytes| - 1]) + NumberBits(bytes[|bytes| - 1], 8)
  }

  lemma {:induction false} BytesBitsConcat(a: seq<Byte>, b: seq<Byte>)
    ensures BytesBits(a + b) == BytesBits(a) + BytesBits(b)
  {
    if b == [] {
      assert a + b == a;
    } else {
      BytesBitsConcat(a, b[..|b| - 1]);
      assert (a + b)[..|a + b| - 1] == a + b[..|b| - 1];
    }
  }

  function Zeros(n: nat): (r: seq<bool>)
    ensures |r| == n
  {
    seq(n, _ => false)
  }

  lemma {:induction false} BitsOfZero(n: nat)
    ensures NumberBits(0, n) == Zeros(n)
  {
    if n > 0 {
      BitsOfZero(n - 1);
    }
  }

  /** How many bits are missing to the end of the byte. */
  function Padding(n: nat): nat {
    (8 - n % 8) % 8
  }

  /** All bytes but the last are full; above the bits in use the last one is empty. */
  ghost predicate BufferOk(buffer: seq<Byte>, bitIndex: nat) {
    && bitIndex <= 8 && (buffer == [] ==> bitIndex == 8)
    && (buffer != [] ==> buffer[|buffer| - 1] < Pow2(bitIndex))
  }

  ghost function BufferBits(buffer: seq<Byte>, bitIndex: nat): seq<bool> {
    if buffer == [] then [] else BytesBits(buffer[..|buffer| - 1]) + NumberBits(buffer[|buffer| - 1], bitIndex)
  }

  lemma FullBuffer(buffer: seq<Byte>)
    ensures BufferBits(buffer, 8) == BytesBits(buffer)
  {
  }

  lemma FreshByte(buffer: seq<Byte>)
    ensures BufferBits(buffer + [0], 0) == BufferBits(buffer, 8)
    ensures BufferOk(buffer + [0], 0)
  {
    FullBuffer(buffer);
    assert (buffer + [0])[..|buffer|] == buffer;
  }

  /** Bits that are or-ed into the free part of the last byte. */
  lemma OrIntoLast(buffer: seq<Byte>, index: nat, bits: nat, n: nat)
    requires BufferOk(buffer, index) && buffer != [] && index + n <= 8
    ensures var last := BitOr(buffer[|buffer| - 1], LowBits(LowBits(Shl(bits, index), 8), n + index));
            && last < 256 && BufferOk(buffer[|buffer| - 1 := last], index + n)
            && BufferBits(buffer[|buffer| - 1 := last], index + n) == BufferBits(buffer, index) + NumberBits(bits, n)
  {
    hide NumberBits, BytesBits, LowBits, Shl, Pow2, BitOr;
    var b, low := buffer[|buffer| - 1], LowBits(bits, n);
    LowBitsLowBits(Shl(bits, index), 8, n + index);
    LowBitsShl(bits, index, n);
    OrDisjoint(b, low, index);
    LowBitsOf(bits, n);
    SumFits(b, low, index, n);
    BitsOfSum(b, low, index, n);
    BitsOfLow(bits, n);
    var last := b + Shl(low, index);
    assert buffer[|buffer| - 1 := last][..|buffer| - 1] == buffer[..|buffer| - 1];
  }

  lemma SumFits(a: nat, b: nat, n: nat, m: nat)
    requires a < Pow2(n) && b < Pow2(m) && n + m <= 8
    ensures a + Shl(b, n) < Pow2(n + m) <= 256
  {
    ShlBelow(b, n, m);
    Pow2Monotonic(n + m, 8);
    SmallPowers();
  }

  lemma {:induction false} ShlBelow(b: nat, n: nat, m: nat)
    requires b < Pow2(m)
    ensures Shl(b, n) + Pow2(n) <= Pow2(n + m)
  {
    if n > 0 {
      ShlBelow(b, n - 1, m);
    }
  }

  class BrotliBitBuffer {
    var buffer: seq<Byte>
    var bitIndex: nat

    ghost predicate Valid()
      reads this
    {
      BufferOk(buffer, bitIndex) && 0 < bitIndex <= 8
    }

    /** All bits written so far. */
    ghost function Contents(): seq<bool>
      reads this
    {
      BufferBits(buffer, bitIndex)
    }

    constructor ()
      ensures Valid() && Contents() == [] && bitIndex == 8
    {
      buffer, bitIndex := [], 8;
    }

    /** Writes the lowest bits of a number, lowest first, into as many bytes as it takes. */
    method AppendNumber(number: U32, width: nat)
      requires Valid()
      modifies this
      ensures Valid() && Contents() == old(Contents()) + NumberBits(number, if width < 32 then width else 32)
    {
      hide BufferOk, BufferBits, NumberBits, LowBits, Shl, BitOr;
      var count := if width < 32 then width else 32;
      var bits: nat := number;
      var written := 0;
      ghost var start := Contents();
      assert start + NumberBits(number, 0) == start;
      while written < count
        invariant Valid() && written <= count && bits == Shr(number, written)
        invariant Contents() == start + NumberBits(number, written)
        decreases count - written
      {
        if bitIndex == 8 {
          FreshByte(buffer);
          bitIndex := 0;
          buffer := buffer + [0];
        }
        IndexInRange(buffer, bitIndex);
        var space := 8 - bitIndex;
        var toWrite := if space < count - written then space else count - written;
        OrIntoLast(buffer, bitIndex, bits, toWrite);
        var mask := LowBits(LowBits(Shl(bits, bitIndex), 8), toWrite + bitIndex);
        buffer := buffer[|buffer| - 1 := BitOr(buffer[|buffer| - 1], mask)];
        BitsSplit(number, written, toWrite);
        ShrShr(number, written, toWrite);
        written := written + toWrite;
        bitIndex := bitIndex + toWrite;
        bits := Shr(bits, toWrite);
      }
    }

    method PadToEndOfByte()
      requires Valid()
      modifies `bitIndex
      ensures Valid() && bitIndex == 8 && Contents() == old(Contents()) + Zeros(Padding(|old(Contents())|))
    {
      PadBits(buffer, bitIndex);
      bitIndex := 8;
    }

    /** Whole bytes follow bits that end with a byte. */
    method AppendRaw(bytes: seq<Byte>)
      requires Valid() && bitIndex == 8
      modifies `buffer
      ensures Valid() && Contents() == old(Contents()) + BytesBits(bytes)
    {
      FullBuffer(buffer);
      FullBuffer(buffer + bytes);
      BytesBitsConcat(buffer, bytes);
      SmallPowers();
      buffer := buffer + bytes;
    }
  }

  lemma IndexInRange(buffer: seq<Byte>, bitIndex: nat)
    requires BufferOk(buffer, bitIndex) && bitIndex < 8
    ensures buffer != []
  {
  }

  lemma PaddingInByte(k: nat, i: nat)
    requires 0 < i <= 8
    ensures Padding(8 * k + i) == 8 - i
  {
    if i == 8 {
      assert (8 * k + i) % 8 == 0;
    } else {
      assert (8 * k + i) % 8 == i;
    }
  }

  /** The free bits of the last byte are zero. */
  lemma PadBits(buffer: seq<Byte>, bitIndex: nat)
    requires BufferOk(buffer, bitIndex) && bitIndex > 0
    ensures BufferOk(buffer, 8)
    ensures BufferBits(buffer, 8) == BufferBits(buffer, bitIndex) + Zeros(Padding(|BufferBits(buffer, bitIndex)|))
  {
    hide NumberBits, BytesBits, Pow2, Padding;
    SmallPowers();
    if buffer == [] {
      PaddingInByte(0, 8);
      NoPadding();
    } else {
      var b := buffer[|buffer| - 1];
      BitsOfSum(b, 0, bitIndex, 8 - bitIndex);
      ShlOfOne(bitIndex);
      BitsOfZero(8 - bitIndex);
      PaddingInByte(|buffer| - 1, bitIndex);
    }
  }

  lemma NoPadding()
    ensures Padding(0) == 0
  {
  }
}
