/** What a stream of nodes stands for, whoever wrote it: a value is looked up by walking from the root towards it. */
module SparseMeaning {
  import opened Bits
  import opened BranchFactors
  import opened BitBuffers
  import opened IntSets
  import opened Wrappers
  import opened SparseTree

  /** Child c of node q has its bit set in the node. */
  ghost predicate LeadsTo(bf: BranchFactor, q: nat, word: nat, c: nat) {
    bf.FirstChild(q) <= c < bf.FirstChild(q) + bf.NodeSize() && Bit(word, c - bf.FirstChild(q))
  }

  ghost function SetChildren(bf: BranchFactor, q: nat, word: nat, n: nat): seq<nat> {
    if n == 0 then []
    else SetChildren(bf, q, word, n - 1) + (if Bit(word, n - 1) then [bf.FirstChild(q) + n - 1] else [])
  }

  /** The children that one level of nodes has in the next one, in the order of the stream. */
  ghost function Queued(bf: BranchFactor, qs: seq<nat>, words: seq<nat>): seq<nat>
    requires |qs| == |words|
  {
    if qs == [] then []
    else
      var n := |qs| - 1;
      Queued(bf, qs[..n], words[..n]) + SetChildren(bf, qs[n], words[n], bf.NodeSize())
  }

  /** The nodes `qs` of a level, whose words come first, lead to x: one of them covers it, and either is zero, which
      stands for all that it covers, or has the bit set that leads to x and the levels below lead to x as well. */
  ghost predicate Describes(bf: BranchFactor, h: nat, qs: seq<nat>, words: seq<nat>, x: nat)
    decreases h, 1
  {
    && h > 0 && |qs| <= |words|
    && exists j: nat :: j < |qs| && qs[j] == Shr(x, bf.Exponent(h)) && (words[j] == 0 || LeadsOn(bf, h, qs, words, x, qs[j], words[j]))
  }

  ghost predicate LeadsOn(bf: BranchFactor, h: nat, qs: seq<nat>, words: seq<nat>, x: nat, q: nat, word: nat)
    requires h > 0 && |qs| <= |words|
    decreases h, 0
  {
    && LeadsTo(bf, q, word, Shr(x, bf.Exponent(h - 1)))
    && (h == 1 || Describes(bf, h - 1, Queued(bf, qs, words[..|qs|]), words[|qs|..], x))
  }

  /** The nodes suffice for this level and for all that it leads to. */
  ghost predicate Enough(bf: BranchFactor, h: nat, qs: seq<nat>, words: seq<nat>) {
    h > 0 ==> |qs| <= |words| && Enough(bf, h - 1, Queued(bf, qs, words[..|qs|]), words[|qs|..])
  }

  /** How many nodes these levels have together. */
  ghost function NodeTotal(bf: BranchFactor, h: nat, qs: seq<nat>, words: seq<nat>): nat
    requires Enough(bf, h, qs, words)
  {
    if h == 0 then 0 else |qs| + NodeTotal(bf, h - 1, Queued(bf, qs, words[..|qs|]), words[|qs|..])
  }

  /** All that the nodes lead to fits into 32 bits: each starts, and each that is zero ends, below 2^32. */
  ghost predicate FitsInto32(bf: BranchFactor, h: nat, qs: seq<nat>, words: seq<nat>) {
    && |qs| <= |words|
    && (forall j: nat :: j < |qs| ==> NodeFits(bf, h, qs[j], words[j]))
    && (h > 1 ==> FitsInto32(bf, h - 1, Queued(bf, qs, words[..|qs|]), words[|qs|..]))
  }

  ghost predicate NodeFits(bf: BranchFactor, h: nat, q: nat, word: nat) {
    Shl(q, bf.Exponent(h)) + (if word == 0 then Pow2(bf.Exponent(h)) - 1 else 0) < U32_LIMIT
  }

  lemma {:induction false} SetChildrenAre(bf: BranchFactor, q: nat, word: nat, n: nat)
    requires n <= bf.NodeSize()
    ensures forall c: nat :: c in SetChildren(bf, q, word, n) <==> LeadsTo(bf, q, word, c) && c < bf.FirstChild(q) + n
    ensures Ascending(SetChildren(bf, q, word, n))
  {
    if n > 0 {
      hide Bit, BranchFactor.FirstChild, BranchFactor.NodeSize, LeadsTo;
      var before := SetChildren(bf, q, word, n - 1);
      var last: seq<nat> := if Bit(word, n - 1) then [bf.FirstChild(q) + n - 1] else [];
      SetChildrenAre(bf, q, word, n - 1);
      LastChild(bf, q, word, n - 1);
      forall c: nat ensures c in before + last <==> LeadsTo(bf, q, word, c) && c < bf.FirstChild(q) + n {
        assert c in before + last <==> c in before || c in last;
      }
      AscendingConcat(before, last);
    }
  }

  lemma LastChild(bf: BranchFactor, q: nat, word: nat, i: nat)
    requires i < bf.NodeSize()
    ensures LeadsTo(bf, q, word, bf.FirstChild(q) + i) <==> Bit(word, i)
  {
    assert bf.FirstChild(q) + i - bf.FirstChild(q) == i;
  }

  ghost predicate SomeLeadsTo(bf: BranchFactor, qs: seq<nat>, words: seq<nat>, c: nat)
    requires |qs| == |words|
  {
    exists j: nat :: j < |qs| && LeadsTo(bf, qs[j], words[j], c)
  }

  lemma {:induction false} QueuedAre(bf: BranchFactor, qs: seq<nat>, words: seq<nat>)
    requires |qs| == |words|
    ensures forall c :: c in Queued(bf, qs, words) <==> SomeLeadsTo(bf, qs, words, c)
    ensures Ascending(qs) ==> Ascending(Queued(bf, qs, words))
  {
    if qs != [] {
      var n := |qs| - 1;
      QueuedAre(bf, qs[..n], words[..n]);
      SetChildrenAre(bf, qs[n], words[n], bf.NodeSize());
      forall c ensures c in Queued(bf, qs, words) <==> SomeLeadsTo(bf, qs, words, c) {
        SomeOneMore(bf, qs, words, c);
      }
      if Ascending(qs) {
        forall c, d | c in Queued(bf, qs[..n], words[..n]) && d in SetChildren(bf, qs[n], words[n], bf.NodeSize()) ensures c < d {
          var j :| 0 <= j < n && LeadsTo(bf, qs[..n][j], words[..n][j], c);
          ChildrenInOrder(bf, qs[j], words[j], c, qs[n], words[n], d);
        }
        AscendingConcat(Queued(bf, qs[..n], words[..n]), SetChildren(bf, qs[n], words[n], bf.NodeSize()));
      }
    }
  }

  lemma SomeOneMore(bf: BranchFactor, qs: seq<nat>, words: seq<nat>, c: nat)
    requires |qs| == |words| > 0
    ensures var n := |qs| - 1;
            SomeLeadsTo(bf, qs, words, c) <==> SomeLeadsTo(bf, qs[..n], words[..n], c) || LeadsTo(bf, qs[n], words[n], c)
  {
    var n := |qs| - 1;
    if SomeLeadsTo(bf, qs[..n], words[..n], c) {
      var j :| 0 <= j < n && LeadsTo(bf, qs[..n][j], words[..n][j], c);
      assert LeadsTo(bf, qs[j], words[j], c);
    }
    if SomeLeadsTo(bf, qs, words, c) {
      var j :| 0 <= j < |qs| && LeadsTo(bf, qs[j], words[j], c);
      assert j < n ==> LeadsTo(bf, qs[..n][j], words[..n][j], c);
    }
  }

  lemma ChildrenInOrder(bf: BranchFactor, p: nat, v: nat, c: nat, q: nat, w: nat, d: nat)
    requires p < q && LeadsTo(bf, p, v, c) && LeadsTo(bf, q, w, d)
    ensures c < d
  {
    ShlGrows(p, bf.Log2());
    ShlMonotonic(p + 1, q, bf.Log2());
  }

  lemma BaseFits(bf: BranchFactor, h: nat, q: nat)
    requires h > 0 && Shl(q, bf.Exponent(h)) < U32_LIMIT
    ensures Scale(bf, q) == bf.FirstChild(q)
    ensures Shl(Scale(bf, q), bf.Exponent(h - 1)) == Shl(q, bf.Exponent(h))
  {
    ShlShl(q, bf.Log2(), bf.Exponent(h - 1));
    ShlGrows(bf.FirstChild(q), bf.Exponent(h - 1));
  }

  lemma {:induction false} ValuesAreChildren(bf: BranchFactor, q: nat, word: nat, n: nat)
    requires bf.FirstChild(q) < U32_LIMIT && n <= bf.NodeSize()
    ensures NodeValues(bf.FirstChild(q), word, n) == SetChildren(bf, q, word, n)
  {
    if n > 0 {
      ValuesAreChildren(bf, q, word, n - 1);
      OrChild(bf, q, n - 1);
    }
  }

  ghost predicate NodesFit(bf: BranchFactor, h: nat, qs: seq<nat>, words: seq<nat>) {
    |qs| == |words| && forall j: nat :: j < |qs| ==> NodeFits(bf, h, qs[j], words[j])
  }

  /** The bases that the decoder keeps are the first children of the nodes. */
  lemma {:induction false} BitsAreQueued(bf: BranchFactor, h: nat, qs: seq<nat>, words: seq<nat>)
    requires h > 0 && NodesFit(bf, h, qs, words)
    ensures SetBits(bf, ScaleAll(bf, qs), words) == Queued(bf, qs, words)
  {
    if qs != [] {
      var n := |qs| - 1;
      assert NodeFits(bf, h, qs[n], words[n]);
      BitsAreQueued(bf, h, qs[..n], words[..n]);
      assert ScaleAll(bf, qs)[..n] == ScaleAll(bf, qs[..n]);
      BaseFits(bf, h, qs[n]);
      ValuesAreChildren(bf, qs[n], words[n], bf.NodeSize());
    }
  }

  lemma ZeroRangeIs(bf: BranchFactor, h: nat, q: nat, x: nat)
    requires h > 0 && NodeFits(bf, h, q, 0)
    ensures x in ZeroRange(bf, h, Scale(bf, q)) <==> q == Shr(x, bf.Exponent(h))
  {
    hide Shl, Shr, Pow2, Scale, BranchFactor.Exponent, Range, Wrap32;
    BaseFits(bf, h, q);
    ShrRange(x, bf.Exponent(h), q);
    RangeIs(Shl(q, bf.Exponent(h)), Pow2(bf.Exponent(h)), x);
  }

  lemma RangeIs(lo: nat, size: nat, x: nat)
    requires 0 < size && lo + size - 1 < U32_LIMIT
    ensures x in Range(Wrap32(lo), Wrap32(Wrap32(lo) + size - 1)) <==> lo <= x < lo + size
  {
  }

  ghost predicate SomeZero(bf: BranchFactor, h: nat, qs: seq<nat>, words: seq<nat>, x: nat)
    requires |qs| == |words|
  {
    exists j: nat :: j < |qs| && qs[j] == Shr(x, bf.Exponent(h)) && words[j] == 0
  }

  lemma {:induction false} ZeroRangesAre(bf: BranchFactor, h: nat, qs: seq<nat>, words: seq<nat>, x: nat)
    requires h > 0 && NodesFit(bf, h, qs, words)
    ensures x in ZeroRanges(bf, h, ScaleAll(bf, qs), words) <==> SomeZero(bf, h, qs, words, x)
  {
    if qs != [] {
      var n := |qs| - 1;
      assert NodeFits(bf, h, qs[n], words[n]);
      ZeroRangesAre(bf, h, qs[..n], words[..n], x);
      assert ScaleAll(bf, qs)[..n] == ScaleAll(bf, qs[..n]);
      if words[n] == 0 {
        ZeroRangeIs(bf, h, qs[n], x);
      }
      SomeZeroMore(bf, h, qs, words, x);
    }
  }

  lemma SomeZeroMore(bf: BranchFactor, h: nat, qs: seq<nat>, words: seq<nat>, x: nat)
    requires |qs| == |words| > 0
    ensures var n := |qs| - 1;
            SomeZero(bf, h, qs, words, x) <==>
            SomeZero(bf, h, qs[..n], words[..n], x) || (qs[n] == Shr(x, bf.Exponent(h)) && words[n] == 0)
  {
    var n := |qs| - 1;
    if SomeZero(bf, h, qs[..n], words[..n], x) {
      var j :| 0 <= j < n && qs[..n][j] == Shr(x, bf.Exponent(h)) && words[..n][j] == 0;
      assert qs[j] == Shr(x, bf.Exponent(h)) && words[j] == 0;
    }
    if SomeZero(bf, h, qs, words, x) {
      var j :| 0 <= j < |qs| && qs[j] == Shr(x, bf.Exponent(h)) && words[j] == 0;
      assert j < n ==> qs[..n][j] == Shr(x, bf.Exponent(h)) && words[..n][j] == 0;
    }
  }

  /** Only the node that covers x has a child that covers it. */
  lemma ChildCovers(bf: BranchFactor, h: nat, q: nat, word: nat, x: nat)
    requires h > 0 && LeadsTo(bf, q, word, Shr(x, bf.Exponent(h - 1)))
    ensures q == Shr(x, bf.Exponent(h))
  {
    ChildBlock(bf, h, x);
    ChildIndex(bf, q, Shr(x, bf.Exponent(h - 1)));
  }

  /** The decoder finds exactly the values that its stream describes, zero nodes at the leaves and bits without values
      below them included. */
  lemma {:induction false} TreeMeans(bf: BranchFactor, h: nat, qs: seq<nat>, words: seq<nat>, d: Decoded, x: nat)
    requires Reads(bf, h, ScaleAll(bf, qs), words, d) && Ascending(qs) && (h > 0 ==> FitsInto32(bf, h, qs, words))
    ensures x in d.values <==> Describes(bf, h, qs, words, x)
  {
    if h > 0 {
      var ws, rest := words[..|qs|], words[|qs|..];
      var next := Queued(bf, qs, ws);
      BitsAreQueued(bf, h, qs, ws);
      ZeroRangesAre(bf, h, qs, ws, x);
      QueuedAre(bf, qs, ws);
      var below := DecodeTree(bf, h - 1, ScaleAll(bf, next), rest).value;
      TreeMeans(bf, h - 1, next, rest, below, x);
      if h == 1 {
        AscendingPrefixAll(next);
      }
      WalkOn(bf, h, qs, words, x);
    }
  }

  /** A step of the walk, told by what the level holds itself and what it leads to. */
  lemma WalkOn(bf: BranchFactor, h: nat, qs: seq<nat>, words: seq<nat>, x: nat)
    requires h > 0 && |qs| <= |words|
    ensures var next := Queued(bf, qs, words[..|qs|]);
            Describes(bf, h, qs, words, x) <==>
            || SomeZero(bf, h, qs, words[..|qs|], x)
            || (if h == 1 then x in next else Describes(bf, h - 1, next, words[|qs|..], x))
  {
    var ws, rest := words[..|qs|], words[|qs|..];
    var next, c := Queued(bf, qs, ws), Shr(x, bf.Exponent(h - 1));
    QueuedAre(bf, qs, ws);
    assert h == 1 ==> c == x;
    assert c in next <==> SomeLeadsTo(bf, qs, ws, c);
    if SomeZero(bf, h, qs, ws, x) {
      var j :| 0 <= j < |qs| && qs[j] == Shr(x, bf.Exponent(h)) && ws[j] == 0;
      assert words[j] == 0;
    }
    if c in next {
      var j :| 0 <= j < |qs| && LeadsTo(bf, qs[j], ws[j], c);
      ChildCovers(bf, h, qs[j], ws[j], x);
      assert qs[j] == Shr(x, bf.Exponent(h)) && words[j] == ws[j];
    }
    if Describes(bf, h, qs, words, x) {
      var j :| 0 <= j < |qs| && qs[j] == Shr(x, bf.Exponent(h)) && (words[j] == 0 || LeadsOn(bf, h, qs, words, x, qs[j], words[j]));
      assert ws[j] == words[j];
    }
  }

  // ---------- when 32 bits are not enough ----------

  lemma {:induction false} OrBelow(a: nat, b: nat, n: nat)
    requires a < Pow2(n) && b < Pow2(n)
    ensures BitOr(a, b) < Pow2(n)
  {
    if n > 0 {
      OrBelow(a / 2, b / 2, n - 1);
    }
  }

  lemma {:induction false} NodeValuesBelow(base: U32, word: nat, n: nat)
    requires n <= 32
    ensures forall x :: x in NodeValues(base, word, n) ==> x < U32_LIMIT
  {
    if n > 0 {
      NodeValuesBelow(base, word, n - 1);
      SmallPowers();
      OrBelow(base, n - 1, 32);
    }
  }

  lemma NodeSizes(bf: BranchFactor)
    ensures bf.NodeSize() <= 32
  {
    assert Pow2(1) == 2 && Pow2(2) == 4 && Pow2(3) == 8 && Pow2(5) == 4 * Pow2(3);
  }

  lemma {:induction false} LevelBelow(bf: BranchFactor, h: nat, bases: seq<U32>, words: seq<nat>)
    requires |bases| == |words| && h > 0
    ensures forall x :: x in SetBits(bf, bases, words) ==> x < U32_LIMIT
    ensures forall x :: x in ZeroRanges(bf, h, bases, words) ==> x < U32_LIMIT
  {
    if bases != [] {
      var n := |bases| - 1;
      LevelBelow(bf, h, bases[..n], words[..n]);
      NodeSizes(bf);
      NodeValuesBelow(bases[n], words[n], bf.NodeSize());
    }
  }

  /** Whatever is decoded is a 32-bit value. */
  lemma {:induction false} DecodedBelow(bf: BranchFactor, h: nat, bases: seq<U32>, words: seq<nat>, d: Decoded)
    requires Reads(bf, h, bases, words, d)
    ensures forall x :: x in d.values ==> x < U32_LIMIT
  {
    if h > 0 {
      hide SetBits, ZeroRanges, NextBases;
      var ws, rest := words[..|bases|], words[|bases|..];
      LevelBelow(bf, h, bases, ws);
      DecodedBelow(bf, h - 1, NextBases(bf, bases, ws), rest, DecodeTree(bf, h - 1, NextBases(bf, bases, ws), rest).value);
    }
  }

  lemma {:induction false} SameCount(bf: BranchFactor, base: U32, q: nat, word: nat, n: nat)
    ensures |NodeValues(base, word, n)| == |SetChildren(bf, q, word, n)|
  {
    if n > 0 {
      SameCount(bf, base, q, word, n - 1);
    }
  }

  lemma {:induction false} SameLength(bf: BranchFactor, bases: seq<U32>, qs: seq<nat>, words: seq<nat>)
    requires |bases| == |qs| == |words|
    ensures |SetBits(bf, bases, words)| == |Queued(bf, qs, words)|
  {
    if qs != [] {
      var n := |qs| - 1;
      SameLength(bf, bases[..n], qs[..n], words[..n]);
      SameCount(bf, bases[n], qs[n], words[n], bf.NodeSize());
    }
  }

  lemma {:induction false} SomeBit(word: nat, n: nat) returns (i: nat)
    requires 0 < word < Pow2(n)
    ensures i < n && Bit(word, i)
  {
    if word % 2 == 1 {
      i := 0;
    } else {
      i := SomeBit(word / 2, n - 1);
      i := i + 1;
    }
  }

  lemma LeafBlock(bf: BranchFactor)
    ensures forall x: nat :: Shr(x, bf.Exponent(0)) == x
  {
  }

  /** A set bit of a node leads to what the levels below lead to. */
  lemma ChildLeads(bf: BranchFactor, h: nat, qs: seq<nat>, words: seq<nat>, j: nat, c: nat, x: nat)
    requires h > 0 && |qs| <= |words| && j < |qs| && LeadsTo(bf, qs[j], words[j], c) && Shr(x, bf.Exponent(h - 1)) == c
    requires h == 1 || Describes(bf, h - 1, Queued(bf, qs, words[..|qs|]), words[|qs|..], x)
    ensures Describes(bf, h, qs, words, x) && Shr(x, bf.Exponent(h)) == qs[j]
  {
    ChildCovers(bf, h, qs[j], words[j], x);
    assert words[j] == 0 || LeadsOn(bf, h, qs, words, x, qs[j], words[j]);
  }

  lemma ChildListed(bf: BranchFactor, qs: seq<nat>, words: seq<nat>, j: nat) returns (c: nat)
    requires |qs| <= |words| && WordsFit(bf, words) && j < |qs| && words[j] != 0
    ensures LeadsTo(bf, qs[j], words[j], c) && c in Queued(bf, qs, words[..|qs|])
  {
    var i := SomeBit(words[j], bf.NodeSize());
    c := bf.FirstChild(qs[j]) + i;
    LastChild(bf, qs[j], words[j], i);
    QueuedAre(bf, qs, words[..|qs|]);
    assert LeadsTo(bf, qs[j], words[..|qs|][j], c);
    assert SomeLeadsTo(bf, qs, words[..|qs|], c);
  }

  /** Every node of a stream leads to some value. */
  lemma {:induction false} Leads(bf: BranchFactor, h: nat, qs: seq<nat>, words: seq<nat>, j: nat) returns (x: nat)
    requires h > 0 && Enough(bf, h, qs, words) && WordsFit(bf, words) && j < |qs|
    ensures Describes(bf, h, qs, words, x) && Shr(x, bf.Exponent(h)) == qs[j]
    ensures words[j] == 0 ==> x == Shl(qs[j], bf.Exponent(h)) + Pow2(bf.Exponent(h)) - 1
    ensures x >= Shl(qs[j], bf.Exponent(h))
  {
    hide Shl, Shr, Pow2, BranchFactor.Exponent, LeadsTo, Queued;
    if words[j] == 0 {
      x := Shl(qs[j], bf.Exponent(h)) + Pow2(bf.Exponent(h)) - 1;
    } else {
      var c := ChildListed(bf, qs, words, j);
      if h == 1 {
        x := c;
        LeafBlock(bf);
      } else {
        var next := Queued(bf, qs, words[..|qs|]);
        var k: nat :| k < |next| && next[k] == c;
        x := Leads(bf, h - 1, next, words[|qs|..], k);
      }
      ChildLeads(bf, h, qs, words, j, c, x);
    }
    ShrRange(x, bf.Exponent(h), qs[j]);
  }

  /** A stream that does not fit describes a value of more than 32 bits. */
  lemma {:induction false} Overflows(bf: BranchFactor, h: nat, qs: seq<nat>, words: seq<nat>) returns (x: nat)
    requires h > 0 && Enough(bf, h, qs, words) && WordsFit(bf, words) && !FitsInto32(bf, h, qs, words)
    ensures Describes(bf, h, qs, words, x) && x >= U32_LIMIT
  {
    if j: nat :| j < |qs| && !NodeFits(bf, h, qs[j], words[j]) {
      x := Leads(bf, h, qs, words, j);
    } else {
      x := Overflows(bf, h - 1, Queued(bf, qs, words[..|qs|]), words[|qs|..]);
      WalkOn(bf, h, qs, words, x);
    }
  }

  lemma ChildWithin(bf: BranchFactor, h: nat, q: nat, word: nat, c: nat)
    requires h > 0 && LeadsTo(bf, q, word, c)
    ensures Shl(c, bf.Exponent(h - 1)) + Pow2(bf.Exponent(h - 1)) <= Shl(q, bf.Exponent(h)) + Pow2(bf.Exponent(h))
  {
    var e := bf.Exponent(h - 1);
    ShlGrows(q, bf.Log2());
    ShlGrows(q, bf.Exponent(h));
    ShlShl(q + 1, bf.Log2(), e);
    ShlGrows(c, e);
    ShlMonotonic(c + 1, bf.FirstChild(q + 1), e);
  }

  /** A tree with at most 32 bits of values below its root always fits. */
  lemma {:induction false} SmallTreesFit(bf: BranchFactor, h: nat, qs: seq<nat>, words: seq<nat>)
    requires h > 0 && Enough(bf, h, qs, words)
    requires forall q :: q in qs ==> Shl(q, bf.Exponent(h)) + Pow2(bf.Exponent(h)) <= U32_LIMIT
    ensures FitsInto32(bf, h, qs, words)
  {
    hide Shl, Pow2, BranchFactor.Exponent, LeadsTo, Queued;
    if h > 1 {
      var ws := words[..|qs|];
      var next := Queued(bf, qs, ws);
      QueuedAre(bf, qs, ws);
      forall c | c in next ensures Shl(c, bf.Exponent(h - 1)) + Pow2(bf.Exponent(h - 1)) <= U32_LIMIT {
        var j :| 0 <= j < |qs| && LeadsTo(bf, qs[j], ws[j], c);
        ChildWithin(bf, h, qs[j], ws[j], c);
      }
      SmallTreesFit(bf, h - 1, next, words[|qs|..]);
    }
  }

  lemma NextLength(bf: BranchFactor, bases: seq<U32>, qs: seq<nat>, words: seq<nat>)
    requires |bases| == |qs| == |words|
    ensures |NextBases(bf, bases, words)| == |Queued(bf, qs, words)|
  {
    SameLength(bf, bases, qs, words);
  }

  /** The decoder succeeds when the nodes suffice, and reads no more of them. */
  lemma {:induction false} TreeEnds(bf: BranchFactor, h: nat, bases: seq<U32>, qs: seq<nat>, words: seq<nat>)
    requires |bases| == |qs|
    ensures DecodeTree(bf, h, bases, words).Some? <==> Enough(bf, h, qs, words)
    ensures Enough(bf, h, qs, words) ==> DecodeTree(bf, h, bases, words).value.used == NodeTotal(bf, h, qs, words)
  {
    if h > 0 && |qs| <= |words| {
      var ws, rest := words[..|qs|], words[|qs|..];
      NextLength(bf, bases, qs, ws);
      TreeEnds(bf, h - 1, NextBases(bf, bases, ws), Queued(bf, qs, ws), rest);
    }
  }

  // ---------- bytes ----------

  /** The bytes of n nodes are the fewest that hold their bits. */
  lemma PackedLengthIsLeast(bf: BranchFactor, n: nat)
    ensures bf.NodeSize() * n <= 8 * PackedLength(bf, n) < bf.NodeSize() * n + 8
  {
    SmallPowers();
    assert Pow2(1) == 2 && Pow2(3) == 8 && Pow2(5) == 32;
  }

  /** Bytes are decoded unless the depth is too large or the nodes run out, and nothing is left but what follows them. */
  lemma BytesEnd(data: seq<Byte>)
    requires data != []
    ensures var bf, h, nodes := DecodeBranchFactor(data[0]), DecodeDepth(data[0]), Unpack(DecodeBranchFactor(data[0]), data[1..]);
            && (DecodeBytes(data).Ok? <==> h <= bf.MaxDepth() && Enough(bf, h, [0], nodes))
            && (DecodeBytes(data).Ok? ==>
                  var n := 1 + PackedLength(bf, NodeTotal(bf, h, [0], nodes));
                  n <= |data| && DecodeBytes(data).value.1 == data[n..])
  {
    var bf, h := DecodeBranchFactor(data[0]), DecodeDepth(data[0]);
    var nodes := Unpack(bf, data[1..]);
    TreeEnds(bf, h, [0], [0], nodes);
    if Enough(bf, h, [0], nodes) {
      TotalWithin(bf, h, [0], nodes);
    }
  }

  lemma {:induction false} TotalWithin(bf: BranchFactor, h: nat, qs: seq<nat>, words: seq<nat>)
    requires Enough(bf, h, qs, words)
    ensures NodeTotal(bf, h, qs, words) <= |words|
  {
    if h > 0 {
      TotalWithin(bf, h - 1, Queued(bf, qs, words[..|qs|]), words[|qs|..]);
    }
  }

  lemma WordFitsAt(bf: BranchFactor, data: seq<Byte>, i: nat)
    requires i < WordCount(bf, |data|)
    ensures WordAt(bf, data, i) < bf.WordLimit()
  {
    SmallPowers();
  }

  /** `S` is what the nodes of a tree with h levels describe. */
  ghost predicate IsDescribed(S: set<nat>, bf: BranchFactor, h: nat, nodes: seq<nat>) {
    forall x: nat :: x in S <==> Describes(bf, h, [0], nodes, x)
  }

  lemma RootWithin(e: nat)
    requires e <= 32
    ensures Shl(0, e) + Pow2(e) <= U32_LIMIT
  {
    ShlOfOne(e);
    Pow2Monotonic(e, 32);
    SmallPowers();
  }

  lemma UnpackedFit(bf: BranchFactor, data: seq<Byte>)
    ensures WordsFit(bf, Unpack(bf, data))
  {
    hide WordAt, WordCount, BranchFactor.WordLimit;
    forall i | 0 <= i < WordCount(bf, |data|) ensures WordAt(bf, data, i) < bf.WordLimit() {
      WordFitsAt(bf, data, i);
    }
  }

  lemma RootBase(bf: BranchFactor)
    ensures ScaleAll(bf, [0]) == [0]
  {
    ShlOfOne(bf.Log2());
  }

  lemma SmallRootFits(bf: BranchFactor, h: nat, nodes: seq<nat>)
    requires h > 0 && bf.Exponent(h) <= 32 && Enough(bf, h, [0], nodes)
    ensures FitsInto32(bf, h, [0], nodes)
  {
    hide Shl, Pow2, BranchFactor.Exponent, FitsInto32, Enough;
    RootWithin(bf.Exponent(h));
    SmallTreesFit(bf, h, [0], nodes);
  }

  lemma RootMeans(bf: BranchFactor, h: nat, nodes: seq<nat>, d: Decoded)
    requires Reads(bf, h, [0], nodes, d) && WordsFit(bf, nodes)
    ensures IsDescribed(d.values, bf, h, nodes) <==> h == 0 || FitsInto32(bf, h, [0], nodes)
    ensures bf.Exponent(h) <= 32 ==> IsDescribed(d.values, bf, h, nodes)
  {
    hide ScaleAll, DecodeTree, BranchFactor.Exponent, Describes, FitsInto32, Enough, WordsFit;
    RootBase(bf);
    assert Enough(bf, h, [0], nodes) by {
      TreeEnds(bf, h, [0], [0], nodes);
    }
    if h > 0 && bf.Exponent(h) <= 32 {
      SmallRootFits(bf, h, nodes);
    }
    if h == 0 || FitsInto32(bf, h, [0], nodes) {
      forall x: nat ensures x in d.values <==> Describes(bf, h, [0], nodes, x) {
        TreeMeans(bf, h, [0], nodes, d, x);
      }
    } else {
      DecodedBelow(bf, h, [0], nodes, d);
      var x := Overflows(bf, h, [0], nodes);
      assert Describes(bf, h, [0], nodes, x) && x !in d.values;
    }
  }

  /** What is decoded from any bytes at all is what they describe if and only if that fits into 32 bits. */
  lemma BytesMean(data: seq<Byte>, S: set<nat>, rest: seq<Byte>)
    requires data != [] && DecodeBytes(data) == Ok((S, rest))
    ensures var bf, h, nodes := DecodeBranchFactor(data[0]), DecodeDepth(data[0]), Unpack(DecodeBranchFactor(data[0]), data[1..]);
            && (IsDescribed(S, bf, h, nodes) <==> h == 0 || FitsInto32(bf, h, [0], nodes))
            && (bf.Exponent(h) <= 32 ==> IsDescribed(S, bf, h, nodes))
  {
    var bf, h := DecodeBranchFactor(data[0]), DecodeDepth(data[0]);
    var nodes := Unpack(bf, data[1..]);
    hide DecodeTree, IsDescribed, FitsInto32, WordsFit, Unpack;
    UnpackedFit(bf, data[1..]);
    RootMeans(bf, h, nodes, DecodeTree(bf, h, [0], nodes).value);
  }

  lemma {:induction false} NothingBelow(bf: BranchFactor, h: nat)
    ensures Reads(bf, h, [], [], Decoded({}, 0))
  {
    if h > 0 {
      assert ScaleAll(bf, []) == [];
      NothingBelow(bf, h - 1);
    }
  }

  lemma OnlyFourth(c: nat)
    ensures Bit(16, c) <==> c == 4
  {
    assert Pow2(4) == 16;
    BitOfSum(0, 4, c);
    ShrOfZero(c);
  }

  /** The one child of the root in the example. */
  lemma OneChild()
    ensures SetChildren(BF32, 0, 16, BF32.NodeSize()) == [4] && Queued(BF32, [0], [16]) == [4]
  {
    ShlOfOne(5);
    assert Pow2(5) == 32;
    var children := SetChildren(BF32, 0, 16, BF32.NodeSize());
    SetChildrenAre(BF32, 0, 16, BF32.NodeSize());
    forall c: nat ensures c in children <==> c in [4] {
      OnlyFourth(c);
    }
    AscendingUnique(children, [4]);
    assert Queued(BF32, [], []) == [];
  }

  lemma {:induction false} NoSetChildren(bf: BranchFactor, q: nat, n: nat)
    ensures SetChildren(bf, q, 0, n) == []
  {
    if n > 0 {
      NoSetChildren(bf, q, n - 1);
      ShrOfZero(n - 1);
    }
  }

  lemma NoChild(bf: BranchFactor, base: U32, q: nat)
    ensures NextBases(bf, [base], [0]) == [] && Queued(bf, [q], [0]) == []
  {
    ReadZero(base, bf.NodeSize());
    NoSetChildren(bf, q, bf.NodeSize());
    assert SetBits(bf, [], []) == [] && Queued(bf, [], []) == [];
  }

  lemma PowersInExample()
    ensures Shl(4, 30) == U32_LIMIT && BF32.Exponent(5) == 25 && BF32.Exponent(6) == 30 && BF32.Exponent(7) == 35
    ensures Shl(128, 25) == U32_LIMIT && BF32.FirstChild(4) == 128
    ensures Pow2(30) < U32_LIMIT
  {
    SmallPowers();
    SmallShifts(1);
    SmallShifts(4);
    ShlShl(1, 2, 30);
    ShlOfOne(32);
    ShlShl(4, 5, 25);
    Pow2Monotonic(30, 31);
    assert Pow2(32) == 2 * Pow2(31);
  }

  lemma RootFits()
    ensures NodesFit(BF32, 7, [0], [16])
  {
    ShlOfOne(BF32.Exponent(7));
    hide Shl, Pow2, BranchFactor.Exponent;
    assert NodeFits(BF32, 7, 0, 16);
  }

  lemma ExampleScaled()
    ensures ScaleAll(BF32, [0]) == [0] && ScaleAll(BF32, [4]) == [128]
  {
    PowersInExample();
    ShlOfOne(5);
    hide Shl, Pow2, BranchFactor.Exponent;
    assert Scale(BF32, 0) == 0 && Scale(BF32, 4) == 128;
  }

  lemma ExampleBases()
    ensures ScaleAll(BF32, [0]) == [0] && NextBases(BF32, [0], [16]) == [128]
  {
    ExampleScaled();
    OneChild();
    RootFits();
    hide Shl, Pow2, BranchFactor.Exponent, SetBits, Queued, ScaleAll;
    BitsAreQueued(BF32, 7, [0], [16]);
  }

  lemma ExampleRange()
    ensures ZeroRange(BF32, 6, 128) == Range(0, Pow2(30) - 1)
  {
    PowersInExample();
    hide Shl, Pow2, BranchFactor.Exponent, Range;
  }

  lemma DecodesLow()
    ensures Reads(BF32, 7, [0], [16, 0], Decoded(Range(0, Pow2(30) - 1), 2))
  {
    hide Shl, Pow2, BranchFactor.Exponent, NodeValues, SetBits, DecodeTree, Reads, Range, ZeroRange;
    ExampleBases();
    ExampleRange();
    NoChild(BF32, 128, 4);
    NothingBelow(BF32, 5);
    var below := ReadsLevel(BF32, 6, [128], [0], [], Decoded({}, 0));
    assert [0] + [] == [0];
    var d := ReadsLevel(BF32, 7, [0], [16], [0], below);
    assert [16] + [0] == [16, 0];
    assert ZeroRanges(BF32, 6, [], []) == {} && ZeroRanges(BF32, 7, [], []) == {};
    assert d.values == Range(0, Pow2(30) - 1);
  }

  lemma ZeroDescribes(q: nat, x: nat)
    ensures Describes(BF32, 6, [q], [0], x) <==> Shr(x, BF32.Exponent(6)) == q
  {
    hide Shl, Shr, Pow2, BranchFactor.Exponent, Queued, LeadsOn;
    NoChild(BF32, 0, q);
    WalkOn(BF32, 6, [q], [0], x);
    assert [0][..1] == [0] && [0][1..] == [];
    NothingDescribed(BF32, 5, x);
    assert [q][0] == q;
  }

  lemma NothingDescribed(bf: BranchFactor, h: nat, x: nat)
    ensures !Describes(bf, h, [], [], x)
  {
  }

  /** A tree of seven levels with 32 children each has room for 2^35 values: its fifth child starts at 2^32, and when it
      is filled the values from 0 on are decoded. */
  lemma WrapsRound(x: nat)
    ensures Reads(BF32, 7, [0], [16, 0], Decoded(Range(0, Pow2(30) - 1), 2))
    ensures Describes(BF32, 7, [0], [16, 0], x) <==> U32_LIMIT <= x < U32_LIMIT + Pow2(30)
  {
    hide Shl, Shr, Pow2, BranchFactor.Exponent, SetBits, DecodeTree, Range, Queued, Describes;
    DecodesLow();
    PowersInExample();
    OneChild();
    WalkOn(BF32, 7, [0], [16, 0], x);
    assert [16, 0][..1] == [16] && [16, 0][1..] == [0];
    ZeroDescribes(4, x);
    ShrRange(x, 30, 4);
  }
}
