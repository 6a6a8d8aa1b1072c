/** Powers of two, shifts and bitwise operations on unbounded naturals.
    Fixed-width integers of the program are modelled as naturals; where a value could
    leave its width, `Wrap32` writes the truncation out. */
module Bits {

  const U32_LIMIT: nat := 0x1_0000_0000

  /** The values of a C++ `uint32_t`: assigning to a field of this type proves that nothing wraps. */
  type U32 = x: nat | x < U32_LIMIT

  function Wrap32(x: nat): U32 {
    x % U32_LIMIT
  }

  function Pow2(n: nat): (r: nat)
    ensures r > 0
  {
    if n == 0 then 1 else 2 * Pow2(n - 1)
  }

  /** `x >> n`: also the index of the aligned block of 2^n values that holds `x`. */
  function Shr(x: nat, n: nat): nat {
    if n == 0 then x else Shr(x / 2, n - 1)
  }

  /** `x << n` without a width. */
  function Shl(x: nat, n: nat): nat {
    if n == 0 then x else 2 * Shl(x, n - 1)
  }

  /** `x & (2^n - 1)`. */
  function LowBits(x: nat, n: nat): nat {
    if n == 0 then 0 else 2 * LowBits(x / 2, n - 1) + x % 2
  }

  /** Bit `i` of `x`. */
  predicate Bit(x: nat, i: nat) {
    Shr(x, i) % 2 == 1
  }

  /** `a | b`. */
  function BitOr(a: nat, b: nat): nat {
    if a == 0 then b
    else if b == 0 then a
    else 2 * BitOr(a / 2, b / 2) + (if a % 2 == 1 || b % 2 == 1 then 1 else 0)
  }

  lemma {:induction false} Pow2Monotonic(a: nat, b: nat)
    requires a <= b
    ensures Pow2(a) <= Pow2(b)
    decreases b
  {
    if a < b {
      Pow2Monotonic(a, b - 1);
    }
  }

  lemma {:induction false} ShlOfOne(n: nat)
    ensures Shl(1, n) == Pow2(n)
    ensures Shl(0, n) == 0
  {
    if n > 0 {
      ShlOfOne(n - 1);
    }
  }

  lemma {:induction false} ShlGrows(x: nat, n: nat)
    ensures x <= Shl(x, n)
    ensures Shl(x + 1, n) == Shl(x, n) + Pow2(n)
  {
    if n > 0 {
      ShlGrows(x, n - 1);
    }
  }

  lemma {:induction false} ShlMonotonic(a: nat, b: nat, n: nat)
    requires a <= b
    ensures Shl(a, n) <= Shl(b, n)
  {
    if n > 0 {
      ShlMonotonic(a, b, n - 1);
    }
  }

  lemma {:induction false} ShlShl(x: nat, a: nat, b: nat)
    ensures Shl(Shl(x, a), b) == Shl(x, a + b)
  {
    if b > 0 {
      ShlShl(x, a, b - 1);
    }
  }

  /** The block with index `q` holds exactly the 2^n values from q * 2^n on. */
  lemma {:induction false} ShrRange(x: nat, n: nat, q: nat)
    ensures Shr(x, n) == q <==> Shl(q, n) <= x < Shl(q, n) + Pow2(n)
    ensures Shl(q + 1, n) == Shl(q, n) + Pow2(n)
  {
    if n > 0 {
      ShrRange(x / 2, n - 1, q);
    }
  }

  lemma {:induction false} ShrShr(x: nat, a: nat, b: nat)
    ensures Shr(Shr(x, a), b) == Shr(x, a + b)
  {
    if a > 0 {
      ShrShr(x / 2, a - 1, b);
    }
  }

  lemma {:induction false} ShrMonotonic(x: nat, y: nat, n: nat)
    requires x <= y
    ensures Shr(x, n) <= Shr(y, n)
  {
    if n > 0 {
      ShrMonotonic(x / 2, y / 2, n - 1);
    }
  }

  lemma {:induction false} LowBitsOf(x: nat, n: nat)
    ensures x == Shl(Shr(x, n), n) + LowBits(x, n)
    ensures LowBits(x, n) < Pow2(n)
  {
    if n > 0 {
      LowBitsOf(x / 2, n - 1);
    }
  }

  /** The bits of a number put together from a low and a high part. */
  lemma {:induction false} BitOfParts(low: nat, high: nat, n: nat, i: nat)
    requires low < Pow2(n)
    ensures Bit(low + Shl(high, n), i) <==> if i < n then Bit(low, i) else Bit(high, i - n)
  {
    if n > 0 {
      var x := low + Shl(high, n);
      assert x / 2 == low / 2 + Shl(high, n - 1) && x % 2 == low % 2;
      if i > 0 {
        BitOfParts(low / 2, high, n - 1, i - 1);
      }
    }
  }

  /** Or-ing in bits above all the bits of `a` adds them. */
  lemma {:induction false} OrDisjoint(a: nat, b: nat, n: nat)
    requires a < Pow2(n)
    ensures BitOr(a, Shl(b, n)) == a + Shl(b, n)
    ensures BitOr(Shl(b, n), a) == a + Shl(b, n)
    decreases n
  {
    if n > 0 {
      OrDisjoint(a / 2, b, n - 1);
    }
  }

  /** Setting bit `n` of a number below 2^n changes that bit only. */
  lemma {:induction false} BitOfSum(a: nat, n: nat, i: nat)
    requires a < Pow2(n)
    ensures Bit(a + Pow2(n), i) <==> i == n || Bit(a, i)
    ensures i >= n ==> !Bit(a, i)
  {
    if i > 0 && n > 0 {
      BitOfSum(a / 2, n - 1, i - 1);
    } else if i > 0 {
      ShrOfZero(i);
      assert Shr(1, i) == Shr(0, i - 1);
      ShrOfZero(i - 1);
    }
  }

  lemma {:induction false} ShrOfZero(i: nat)
    ensures Shr(0, i) == 0
  {
    if i > 0 {
      ShrOfZero(i - 1);
    }
  }

  lemma SmallShifts(x: nat)
    ensures Shl(x, 0) == x && Shl(x, 1) == 2 * x && Shl(x, 2) == 4 * x && Shl(x, 3) == 8 * x && Shl(x, 4) == 16 * x
    ensures Shl(x, 5) == 32 * x && Shl(x, 6) == 64 * x
  {
    assert Shl(x, 1) == 2 * x;
    assert Shl(x, 2) == 4 * x;
    assert Shl(x, 4) == 16 * x;
  }

  lemma SmallPowers()
    ensures Pow2(2) == 4 && Pow2(4) == 16 && Pow2(6) == 64 && Pow2(8) == 256 && Pow2(10) == 1024
    ensures Pow2(32) == U32_LIMIT
  {
    assert Pow2(4) == 16;
    assert Pow2(8) == 256;
    assert Pow2(12) == 4096;
    assert Pow2(16) == 65536;
    assert Pow2(20) == 16 * 65536;
    assert Pow2(24) == 256 * 65536;
    assert Pow2(28) == 4096 * 65536;
  }
}
