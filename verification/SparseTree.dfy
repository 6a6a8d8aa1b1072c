/** What a sparse bit set means: the tree of nodes a set of values is written as, and the set a stream
    of nodes is read as.

    A block with exponent `e` and index `q` is the range of 2^e values whose quotient by 2^e is `q`.
    A node with `h` levels left, counting itself, covers a block with exponent k * h, where 2^k is the number of
    children; its i-th child has `h - 1` levels left and index q * 2^k + i. */
module SparseTree {
  import opened Bits
  import opened BranchFactors
  import opened BitBuffers
  import opened IntSets
  import opened Wrappers

  // ---------- writing ----------

  ghost predicate Has(S: set<nat>, e: nat, q: nat) {
    exists x :: x in S && Shr(x, e) == q
  }

  ghost predicate Filled(S: set<nat>, e: nat, q: nat) {
    forall x: nat :: Shr(x, e) == q ==> x in S
  }

  /** One bit for each of the first n blocks from index q on that holds a value. */
  ghost function MaskUpTo(S: set<nat>, e: nat, q: nat, n: nat): nat {
    if n == 0 then 0 else MaskUpTo(S, e, q, n - 1) + (if Has(S, e, q + n - 1) then Pow2(n - 1) else 0)
  }

  ghost function ChildrenUpTo(S: set<nat>, e: nat, q: nat, n: nat): seq<nat> {
    if n == 0 then [] else ChildrenUpTo(S, e, q, n - 1) + (if Has(S, e, q + n - 1) then [q + n - 1] else [])
  }

  /** A completely filled node above the leaves is written as zero and has no children in the stream. */
  ghost predicate ZeroCoded(S: set<nat>, bf: BranchFactor, h: nat, q: nat) {
    h >= 2 && Filled(S, bf.Exponent(h), q)
  }

  ghost function Word(S: set<nat>, bf: BranchFactor, h: nat, q: nat): nat
    requires h > 0
  {
    if ZeroCoded(S, bf, h, q) then 0
    else MaskUpTo(S, bf.Exponent(h - 1), bf.FirstChild(q), bf.NodeSize())
  }

  ghost function Children(S: set<nat>, bf: BranchFactor, h: nat, q: nat): seq<nat>
    requires h > 0
  {
    if ZeroCoded(S, bf, h, q) then []
    else ChildrenUpTo(S, bf.Exponent(h - 1), bf.FirstChild(q), bf.NodeSize())
  }

  ghost function LevelWords(S: set<nat>, bf: BranchFactor, h: nat, qs: seq<nat>): seq<nat>
    requires h > 0
  {
    if qs == [] then [] else LevelWords(S, bf, h, qs[..|qs| - 1]) + [Word(S, bf, h, qs[|qs| - 1])]
  }

  ghost function NextLevel(S: set<nat>, bf: BranchFactor, h: nat, qs: seq<nat>): seq<nat>
    requires h > 0
  {
    if qs == [] then [] else NextLevel(S, bf, h, qs[..|qs| - 1]) + Children(S, bf, h, qs[|qs| - 1])
  }

  /** All the nodes below (and including) the nodes `qs`, level by level. */
  ghost function TreeWords(S: set<nat>, bf: BranchFactor, h: nat, qs: seq<nat>): seq<nat> {
    if h == 0 then [] else LevelWords(S, bf, h, qs) + TreeWords(S, bf, h - 1, NextLevel(S, bf, h, qs))
  }

  /** The set as bytes: header, then a tree of height `h`. */
  ghost function Encoded(S: set<nat>, bf: BranchFactor, h: nat): seq<Byte> {
    TreeWordsFit(S, bf, h, [0]);
    [EncodeFirstByte(bf, h)] + Pack(bf, TreeWords(S, bf, h, [0]))
  }

  // ---------- reading ----------

  /** The values or bases that the first n bits of a node stand for. */
  ghost function NodeValues(base: U32, word: nat, n: nat): seq<nat> {
    if n == 0 then [] else NodeValues(base, word, n - 1) + (if Bit(word, n - 1) then [BitOr(base, n - 1)] else [])
  }

  ghost function SetBits(bf: BranchFactor, bases: seq<U32>, words: seq<nat>): seq<nat>
    requires |bases| == |words|
  {
    if bases == [] then []
    else
      var n := |bases| - 1;
      SetBits(bf, bases[..n], words[..n]) + NodeValues(bases[n], words[n], bf.NodeSize())
  }

  /** `x << k` in 32 bits. */
  function Scale(bf: BranchFactor, x: nat): U32 {
    Wrap32(bf.FirstChild(x))
  }

  ghost function ScaleAll(bf: BranchFactor, qs: seq<nat>): seq<U32> {
    seq(|qs|, i requires 0 <= i < |qs| => Scale(bf, qs[i]))
  }

  ghost function NextBases(bf: BranchFactor, bases: seq<U32>, words: seq<nat>): seq<U32>
    requires |bases| == |words|
  {
    ScaleAll(bf, SetBits(bf, bases, words))
  }

  function Range(lo: nat, hi: int): (r: set<nat>)
    ensures forall x :: x in r <==> lo <= x <= hi
    decreases hi - lo
  {
    if hi < lo then {} else {lo} + Range(lo + 1, hi)
  }

  /** The leaf range of a node that is written as zero; both ends are computed in 32 bits. */
  function ZeroRange(bf: BranchFactor, h: nat, base: U32): set<nat>
    requires h > 0
  {
    var lo := Wrap32(Shl(base, bf.Exponent(h - 1)));
    Range(lo, Wrap32(lo + Pow2(bf.Exponent(h)) - 1))
  }

  ghost function ZeroRanges(bf: BranchFactor, h: nat, bases: seq<U32>, words: seq<nat>): set<nat>
    requires |bases| == |words| && h > 0
  {
    if bases == [] then {}
    else
      var n := |bases| - 1;
      ZeroRanges(bf, h, bases[..n], words[..n]) + (if words[n] == 0 then ZeroRange(bf, h, bases[n]) else {})
  }

  /** A bulk insertion takes values up to the first one that breaks the ascending order. */
  function AscendingPrefix(s: seq<nat>): (r: set<nat>)
    ensures forall x :: x in r ==> x in s
    ensures (forall i :: 0 < i < |s| ==> s[i - 1] <= s[i]) ==> forall x :: x in s ==> x in r
  {
    if s == [] then {}
    else if |s| > 1 && s[1] < s[0] then {s[0]}
    else {s[0]} + AscendingPrefix(s[1..])
  }

  datatype Decoded = Decoded(values: set<nat>, used: nat)

  /** Reads the nodes below (and including) those at `bases`, which have `h` levels left. */
  ghost function DecodeTree(bf: BranchFactor, h: nat, bases: seq<U32>, words: seq<nat>): Option<Decoded> {
    if h == 0 then Some(Decoded({}, 0))
    else if |words| < |bases| then None
    else
      var ws := words[..|bases|];
      match DecodeTree(bf, h - 1, NextBases(bf, bases, ws), words[|bases|..])
      case None => None
      case Some(d) =>
        var leaves := if h == 1 then AscendingPrefix(SetBits(bf, bases, ws)) else {};
        Some(Decoded(ZeroRanges(bf, h, bases, ws) + leaves + d.values, |bases| + d.used))
  }

  /** The set read from the front of `data`, and the bytes after it. */
  ghost function DecodeBytes(data: seq<Byte>): Result<(set<nat>, seq<Byte>)> {
    if data == [] then Ok(({}, data))
    else
      var bf, h := DecodeBranchFactor(data[0]), DecodeDepth(data[0]);
      if h > bf.MaxDepth() then Error
      else
        match DecodeTree(bf, h, [0], Unpack(bf, data[1..]))
        case None => Error
        case Some(d) => Ok((d.values, ClippedSubstr(data, 1 + PackedLength(bf, d.used))))
  }

  // ---------- blocks ----------

  /** The children of a block are the blocks one step finer whose quotient is its index. */
  lemma ChildBlock(bf: BranchFactor, h: nat, x: nat)
    requires h > 0
    ensures Shr(x, bf.Exponent(h)) == Shr(Shr(x, bf.Exponent(h - 1)), bf.Log2())
  {
    ShrShr(x, bf.Exponent(h - 1), bf.Log2());
  }

  lemma OrChild(bf: BranchFactor, q: nat, i: nat)
    requires i < bf.NodeSize()
    ensures BitOr(bf.FirstChild(q), i) == bf.FirstChild(q) + i
  {
    OrDisjoint(i, q, bf.Log2());
  }

  lemma ChildIndex(bf: BranchFactor, q: nat, c: nat)
    ensures Shr(c, bf.Log2()) == q <==> bf.FirstChild(q) <= c < bf.FirstChild(q) + bf.NodeSize()
  {
    ShrRange(c, bf.Log2(), q);
  }

  lemma HasParent(S: set<nat>, bf: BranchFactor, h: nat, c: nat)
    requires h > 0 && Has(S, bf.Exponent(h - 1), c)
    ensures Has(S, bf.Exponent(h), Shr(c, bf.Log2()))
  {
    var x :| x in S && Shr(x, bf.Exponent(h - 1)) == c;
    ChildBlock(bf, h, x);
  }

  lemma FilledChild(S: set<nat>, bf: BranchFactor, h: nat, c: nat)
    requires h > 0 && Filled(S, bf.Exponent(h), Shr(c, bf.Log2()))
    ensures Filled(S, bf.Exponent(h - 1), c)
  {
    forall x: nat | Shr(x, bf.Exponent(h - 1)) == c ensures x in S {
      ChildBlock(bf, h, x);
    }
  }

  // ---------- nodes ----------

  lemma {:induction false} MaskBits(S: set<nat>, e: nat, q: nat, n: nat)
    ensures MaskUpTo(S, e, q, n) < Pow2(n)
    ensures forall i: nat :: Bit(MaskUpTo(S, e, q, n), i) <==> i < n && Has(S, e, q + i)
  {
    if n == 0 {
      forall i: nat ensures !Bit(0, i) {
        ShrOfZero(i);
      }
    } else {
      MaskBits(S, e, q, n - 1);
      var a := MaskUpTo(S, e, q, n - 1);
      forall i: nat ensures Bit(MaskUpTo(S, e, q, n), i) <==> i < n && Has(S, e, q + i) {
        BitOfSum(a, n - 1, i);
        if i == n - 1 {
          assert Bit(MaskUpTo(S, e, q, n), i) <==> Has(S, e, q + i);
        }
      }
    }
  }

  lemma {:induction false} ChildrenBetween(S: set<nat>, e: nat, q: nat, n: nat)
    ensures forall c :: c in ChildrenUpTo(S, e, q, n) <==> q <= c < q + n && Has(S, e, c)
    ensures Ascending(ChildrenUpTo(S, e, q, n))
  {
    if n > 0 {
      ChildrenBetween(S, e, q, n - 1);
      forall c ensures c in ChildrenUpTo(S, e, q, n) <==> q <= c < q + n && Has(S, e, c) {
        assert c in ChildrenUpTo(S, e, q, n) <==>
               c in ChildrenUpTo(S, e, q, n - 1) || (c == q + n - 1 && Has(S, e, q + n - 1));
      }
      AscendingConcat(ChildrenUpTo(S, e, q, n - 1), if Has(S, e, q + n - 1) then [q + n - 1] else []);
    }
  }

  lemma WordFits(S: set<nat>, bf: BranchFactor, h: nat, q: nat)
    requires h > 0
    ensures Word(S, bf, h, q) < bf.WordLimit()
  {
    MaskBits(S, bf.Exponent(h - 1), bf.FirstChild(q), bf.NodeSize());
  }

  /** A zero among the nodes that hold a value can only mean a filled node. */
  lemma ZeroMeansFilled(S: set<nat>, bf: BranchFactor, h: nat, q: nat)
    requires h > 0 && Has(S, bf.Exponent(h), q)
    ensures Word(S, bf, h, q) == 0 <==> ZeroCoded(S, bf, h, q)
  {
    var x :| x in S && Shr(x, bf.Exponent(h)) == q;
    var c := Shr(x, bf.Exponent(h - 1));
    ChildBlock(bf, h, x);
    ChildIndex(bf, q, c);
    var i := c - bf.FirstChild(q);
    MaskBits(S, bf.Exponent(h - 1), bf.FirstChild(q), bf.NodeSize());
    assert Has(S, bf.Exponent(h - 1), bf.FirstChild(q) + i);
    assert Bit(MaskUpTo(S, bf.Exponent(h - 1), bf.FirstChild(q), bf.NodeSize()), i);
    ShrOfZero(i);
  }

  /** The set bits of a node, read as children, are the children that hold a value. */
  lemma {:induction false} ReadNode(S: set<nat>, bf: BranchFactor, e: nat, q: nat, word: nat, n: nat)
    requires bf.FirstChild(q) < U32_LIMIT && n <= bf.NodeSize()
    requires word == MaskUpTo(S, e, bf.FirstChild(q), bf.NodeSize())
    ensures NodeValues(bf.FirstChild(q), word, n) == ChildrenUpTo(S, e, bf.FirstChild(q), n)
  {
    if n > 0 {
      ReadNode(S, bf, e, q, word, n - 1);
      OrChild(bf, q, n - 1);
      assert Bit(word, n - 1) <==> Has(S, e, bf.FirstChild(q) + n - 1) by {
        MaskBits(S, e, bf.FirstChild(q), bf.NodeSize());
        assert bf.FirstChild(q) + (n - 1) == bf.FirstChild(q) + n - 1;
      }
    }
  }

  lemma {:induction false} ReadZero(base: U32, n: nat)
    ensures NodeValues(base, 0, n) == []
  {
    if n > 0 {
      ReadZero(base, n - 1);
      ShrOfZero(n - 1);
    }
  }

  // ---------- levels ----------

  /** Every node holds a value below 2^32 - 1: its index and its bases fit into 32 bits. */
  ghost predicate Inhabited(S: set<nat>, bf: BranchFactor, h: nat, qs: seq<nat>) {
    && (forall x :: x in S ==> x < U32_LIMIT - 1)
    && forall q :: q in qs ==> Has(S, bf.Exponent(h), q)
  }

  lemma BasesFit(S: set<nat>, bf: BranchFactor, h: nat, q: nat)
    requires h > 0 && Inhabited(S, bf, h, [q])
    ensures Scale(bf, q) == bf.FirstChild(q) < U32_LIMIT - 1
    ensures Shl(Scale(bf, q), bf.Exponent(h - 1)) == Shl(q, bf.Exponent(h)) < U32_LIMIT - 1
  {
    hide Shr, Shl, Pow2;
    assert Has(S, bf.Exponent(h), q) by { assert q in [q]; }
    var x :| x in S && Shr(x, bf.Exponent(h)) == q;
    ShrRange(x, bf.Exponent(h), q);
    assert bf.Exponent(h) == bf.Log2() + bf.Exponent(h - 1);
    hide BranchFactor.Exponent, BranchFactor.FirstChild, BranchFactor.Log2;
    ShlShl(q, bf.Log2(), bf.Exponent(h - 1));
    ShlGrows(bf.FirstChild(q), bf.Exponent(h - 1));
  }

  lemma PartsInhabited(S: set<nat>, bf: BranchFactor, h: nat, qs: seq<nat>)
    requires qs != [] && Inhabited(S, bf, h, qs)
    ensures Inhabited(S, bf, h, qs[..|qs| - 1]) && Inhabited(S, bf, h, [qs[|qs| - 1]])
    ensures Has(S, bf.Exponent(h), qs[|qs| - 1])
  {
  }

  lemma ScaleFits(S: set<nat>, bf: BranchFactor, h: nat, q: nat)
    requires h > 0 && Inhabited(S, bf, h, [q])
    ensures Scale(bf, q) == bf.FirstChild(q) < U32_LIMIT - 1
  {
    BasesFit(S, bf, h, q);
  }

  lemma {:induction false} LevelWordsFit(S: set<nat>, bf: BranchFactor, h: nat, qs: seq<nat>)
    requires h > 0
    ensures WordsFit(bf, LevelWords(S, bf, h, qs)) && |LevelWords(S, bf, h, qs)| == |qs|
  {
    if qs != [] {
      LevelWordsFit(S, bf, h, qs[..|qs| - 1]);
      WordFits(S, bf, h, qs[|qs| - 1]);
    }
  }

  lemma {:induction false} TreeWordsFit(S: set<nat>, bf: BranchFactor, h: nat, qs: seq<nat>)
    ensures WordsFit(bf, TreeWords(S, bf, h, qs))
  {
    if h > 0 {
      LevelWordsFit(S, bf, h, qs);
      TreeWordsFit(S, bf, h - 1, NextLevel(S, bf, h, qs));
    }
  }

  lemma {:induction false} NextLevelMembers(S: set<nat>, bf: BranchFactor, h: nat, qs: seq<nat>)
    requires h > 0
    ensures forall c :: c in NextLevel(S, bf, h, qs) <==>
                        Shr(c, bf.Log2()) in qs && !ZeroCoded(S, bf, h, Shr(c, bf.Log2()))
                        && Has(S, bf.Exponent(h - 1), c)
    ensures Ascending(qs) ==> Ascending(NextLevel(S, bf, h, qs))
  {
    if qs != [] {
      var q, init := qs[|qs| - 1], qs[..|qs| - 1];
      NextLevelMembers(S, bf, h, init);
      var e := bf.Exponent(h - 1);
      ChildrenBetween(S, e, bf.FirstChild(q), bf.NodeSize());
      forall c ensures c in NextLevel(S, bf, h, qs) <==>
                       Shr(c, bf.Log2()) in qs && !ZeroCoded(S, bf, h, Shr(c, bf.Log2())) && Has(S, e, c)
      {
        ChildIndex(bf, q, c);
        assert Shr(c, bf.Log2()) in qs <==> Shr(c, bf.Log2()) in init || Shr(c, bf.Log2()) == q;
      }
      if Ascending(qs) {
        forall c, d | c in NextLevel(S, bf, h, init) && d in Children(S, bf, h, q) ensures c < d {
          ChildIndex(bf, q, d);
          assert Shr(c, bf.Log2()) < Shr(d, bf.Log2());
          if d <= c { ShrMonotonic(d, c, bf.Log2()); }
        }
        AscendingConcat(NextLevel(S, bf, h, init), Children(S, bf, h, q));
      }
    }
  }

  lemma ReadOneNode(S: set<nat>, bf: BranchFactor, h: nat, q: nat)
    requires h > 0 && Inhabited(S, bf, h, [q])
    ensures NodeValues(Scale(bf, q), Word(S, bf, h, q), bf.NodeSize()) == Children(S, bf, h, q)
  {
    hide Shr, Inhabited, ZeroCoded, MaskUpTo, ChildrenUpTo, NodeValues, Has;
    ScaleFits(S, bf, h, q);
    if ZeroCoded(S, bf, h, q) {
      ReadZero(Scale(bf, q), bf.NodeSize());
    } else {
      ReadNode(S, bf, bf.Exponent(h - 1), q, Word(S, bf, h, q), bf.NodeSize());
    }
  }

  lemma LevelLast(S: set<nat>, bf: BranchFactor, h: nat, qs: seq<nat>)
    requires h > 0 && qs != []
    ensures |LevelWords(S, bf, h, qs)| == |qs|
    ensures var n, words := |qs| - 1, LevelWords(S, bf, h, qs);
            words[..n] == LevelWords(S, bf, h, qs[..n]) && words[n] == Word(S, bf, h, qs[n])
    ensures var n, bases := |qs| - 1, ScaleAll(bf, qs);
            bases[..n] == ScaleAll(bf, qs[..n]) && bases[n] == Scale(bf, qs[n])
    ensures NextLevel(S, bf, h, qs) == NextLevel(S, bf, h, qs[..|qs| - 1]) + Children(S, bf, h, qs[|qs| - 1])
  {
    LevelWordsFit(S, bf, h, qs);
    LevelWordsFit(S, bf, h, qs[..|qs| - 1]);
  }

  /** Reading a level gives the next one. */
  lemma {:induction false} ReadLevel(S: set<nat>, bf: BranchFactor, h: nat, qs: seq<nat>)
    requires h > 0 && Inhabited(S, bf, h, qs)
    ensures |LevelWords(S, bf, h, qs)| == |qs|
    ensures SetBits(bf, ScaleAll(bf, qs), LevelWords(S, bf, h, qs)) == NextLevel(S, bf, h, qs)
  {
    if qs != [] {
      hide Shr, Inhabited, NodeValues, Has, Word, Children, Scale, ScaleAll, LevelWords, NextLevel;
      var n := |qs| - 1;
      LevelLast(S, bf, h, qs);
      PartsInhabited(S, bf, h, qs);
      ReadLevel(S, bf, h, qs[..n]);
      ReadOneNode(S, bf, h, qs[n]);
    }
  }

  lemma ReadFilledNode(S: set<nat>, bf: BranchFactor, h: nat, q: nat, x: nat)
    requires h > 0 && Inhabited(S, bf, h, [q]) && ZeroCoded(S, bf, h, q)
    ensures x in ZeroRange(bf, h, Scale(bf, q)) <==> Shr(x, bf.Exponent(h)) == q
  {
    var e, p := bf.Exponent(h), Pow2(bf.Exponent(h));
    FilledBelowLimit(S, e, q);
    var lo := Shl(q, e);
    assert Shl(Scale(bf, q), bf.Exponent(h - 1)) == lo by {
      BasesFit(S, bf, h, q);
    }
    assert Shr(x, e) == q <==> lo <= x < lo + p by {
      ShrRange(x, e, q);
    }
    assert ZeroRange(bf, h, Scale(bf, q)) == Range(Wrap32(lo), Wrap32(Wrap32(lo) + p - 1));
    UnwrappedRange(lo, p, x);
  }

  lemma FilledBelowLimit(S: set<nat>, e: nat, q: nat)
    requires Filled(S, e, q) && forall x :: x in S ==> x < U32_LIMIT - 1
    ensures Shl(q, e) + Pow2(e) < U32_LIMIT
  {
    var last := Shl(q, e) + Pow2(e) - 1;
    ShrRange(last, e, q);
    assert last in S;
  }

  lemma UnwrappedRange(lo: nat, size: nat, x: nat)
    requires size > 0 && lo + size < U32_LIMIT
    ensures x in Range(Wrap32(lo), Wrap32(Wrap32(lo) + size - 1)) <==> lo <= x < lo + size
  {
    assert Wrap32(lo) == lo;
    assert Wrap32(lo + size - 1) == lo + size - 1;
  }

  /** `r` is the values of the nodes among `qs` that are written as zero. */
  ghost predicate AreZeroValues(S: set<nat>, bf: BranchFactor, h: nat, qs: seq<nat>, r: set<nat>) {
    forall x: nat :: x in r <==> Shr(x, bf.Exponent(h)) in qs && ZeroCoded(S, bf, h, Shr(x, bf.Exponent(h)))
  }

  lemma {:induction false} ReadFilled(S: set<nat>, bf: BranchFactor, h: nat, qs: seq<nat>)
    requires h > 0 && Inhabited(S, bf, h, qs)
    ensures |LevelWords(S, bf, h, qs)| == |qs|
    ensures AreZeroValues(S, bf, h, qs, ZeroRanges(bf, h, ScaleAll(bf, qs), LevelWords(S, bf, h, qs)))
  {
    LevelWordsFit(S, bf, h, qs);
    if qs == [] {
    } else {
      hide Shr, Inhabited, Word, ZeroCoded, ZeroRange, Scale, AreZeroValues;
      var n := |qs| - 1;
      var bases, words := ScaleAll(bf, qs), LevelWords(S, bf, h, qs);
      PartsInhabited(S, bf, h, qs);
      ReadFilled(S, bf, h, qs[..n]);
      assert bases[..n] == ScaleAll(bf, qs[..n]);
      LevelWordsFit(S, bf, h, qs[..n]);
      assert words[..n] == LevelWords(S, bf, h, qs[..n]);
      ZeroValuesStep(S, bf, h, qs, ZeroRanges(bf, h, bases[..n], words[..n]));
    }
  }

  lemma ZeroValuesStep(S: set<nat>, bf: BranchFactor, h: nat, qs: seq<nat>, before: set<nat>)
    requires h > 0 && qs != [] && Inhabited(S, bf, h, [qs[|qs| - 1]]) && Has(S, bf.Exponent(h), qs[|qs| - 1])
    requires AreZeroValues(S, bf, h, qs[..|qs| - 1], before)
    ensures var q := qs[|qs| - 1];
            AreZeroValues(S, bf, h, qs, before + (if Word(S, bf, h, q) == 0 then ZeroRange(bf, h, Scale(bf, q)) else {}))
  {
    var q := qs[|qs| - 1];
    ZeroMeansFilled(S, bf, h, q);
    hide Shr, Inhabited, Word, ZeroCoded, ZeroRange, Scale, Has;
    forall x: nat ensures ZeroCoded(S, bf, h, q) ==> (x in ZeroRange(bf, h, Scale(bf, q)) <==> Shr(x, bf.Exponent(h)) == q) {
      if ZeroCoded(S, bf, h, q) {
        ReadFilledNode(S, bf, h, q, x);
      }
    }
  }

  // ---------- the round trip ----------

  /** The values of S in the blocks `qs`. */
  ghost function Below(S: set<nat>, bf: BranchFactor, h: nat, qs: seq<nat>): set<nat> {
    set x | x in S && Shr(x, bf.Exponent(h)) in qs
  }

  /** What a level reads directly, with what the nodes under it hold, is what its nodes hold. */
  lemma LevelCovers(S: set<nat>, bf: BranchFactor, h: nat, qs: seq<nat>)
    requires h > 0 && Inhabited(S, bf, h, qs)
    ensures |LevelWords(S, bf, h, qs)| == |qs|
    ensures ZeroRanges(bf, h, ScaleAll(bf, qs), LevelWords(S, bf, h, qs)) + Below(S, bf, h - 1, NextLevel(S, bf, h, qs))
            == Below(S, bf, h, qs)
  {
    NextLevelMembers(S, bf, h, qs);
    ReadFilled(S, bf, h, qs);
    var zeros := ZeroRanges(bf, h, ScaleAll(bf, qs), LevelWords(S, bf, h, qs));
    var below := Below(S, bf, h - 1, NextLevel(S, bf, h, qs));
    forall x: nat ensures x in zeros + below <==> x in Below(S, bf, h, qs) {
      ChildBlock(bf, h, x);
      var c := Shr(x, bf.Exponent(h - 1));
      if x in S {
        assert Has(S, bf.Exponent(h - 1), c);
      }
    }
  }

  lemma LeavesAreValues(S: set<nat>, bf: BranchFactor, qs: seq<nat>)
    ensures Below(S, bf, 0, NextLevel(S, bf, 1, qs)) == ToSet(NextLevel(S, bf, 1, qs))
  {
    NextLevelMembers(S, bf, 1, qs);
    assert bf.Exponent(0) == 0;
    forall x | x in NextLevel(S, bf, 1, qs) ensures x in S {
      assert Has(S, 0, x);
    }
  }

  lemma {:induction false} AscendingPrefixAll(s: seq<nat>)
    requires Ascending(s)
    ensures AscendingPrefix(s) == ToSet(s)
  {
  }

  /** With h == 1 the values of the level itself, otherwise the ranges it fills and what lies below it. */
  lemma LevelValues(S: set<nat>, bf: BranchFactor, h: nat, qs: seq<nat>)
    requires h > 0 && Inhabited(S, bf, h, qs) && Ascending(qs)
    ensures |LevelWords(S, bf, h, qs)| == |qs|
    ensures ZeroRanges(bf, h, ScaleAll(bf, qs), LevelWords(S, bf, h, qs))
            + (if h == 1 then {} else Below(S, bf, h - 1, NextLevel(S, bf, h, qs)))
            + (if h == 1 then AscendingPrefix(SetBits(bf, ScaleAll(bf, qs), LevelWords(S, bf, h, qs))) else {})
            == Below(S, bf, h, qs)
  {
    LevelCovers(S, bf, h, qs);
    if h == 1 {
      var next := NextLevel(S, bf, h, qs);
      ReadLevel(S, bf, h, qs);
      assert Ascending(next) by {
        NextLevelMembers(S, bf, h, qs);
      }
      AscendingPrefixAll(next);
      LeavesAreValues(S, bf, qs);
    }
  }

  /** `d` is what the tree at `bases` decodes to from `words`. */
  ghost predicate Reads(bf: BranchFactor, h: nat, bases: seq<U32>, words: seq<nat>, d: Decoded) {
    DecodeTree(bf, h, bases, words) == Some(d)
  }

  lemma ReadsLevel(bf: BranchFactor, h: nat, bases: seq<U32>, words: seq<nat>, rest: seq<nat>, below: Decoded)
    returns (d: Decoded)
    requires h > 0 && |words| == |bases|
    requires Reads(bf, h - 1, NextBases(bf, bases, words), rest, below)
    ensures Reads(bf, h, bases, words + rest, d)
    ensures d.values == ZeroRanges(bf, h, bases, words) + below.values
                        + (if h == 1 then AscendingPrefix(SetBits(bf, bases, words)) else {})
    ensures d.used == |bases| + below.used
  {
    assert (words + rest)[..|bases|] == words;
    assert (words + rest)[|bases|..] == rest;
    var leaves := if h == 1 then AscendingPrefix(SetBits(bf, bases, words)) else {};
    d := Decoded(ZeroRanges(bf, h, bases, words) + leaves + below.values, |bases| + below.used);
  }

  lemma ReadsNothing(bf: BranchFactor, bases: seq<U32>, words: seq<nat>)
    ensures Reads(bf, 0, bases, words, Decoded({}, 0))
  {
  }

  /** One level of the round trip, given what the nodes below it read as. */
  lemma TreeStep(S: set<nat>, bf: BranchFactor, h: nat, qs: seq<nat>, rest: seq<nat>, below: Decoded)
    returns (d: Decoded)
    requires h > 0 && Inhabited(S, bf, h, qs) && Ascending(qs)
    requires var next := NextLevel(S, bf, h, qs);
             Reads(bf, h - 1, ScaleAll(bf, next), TreeWords(S, bf, h - 1, next) + rest, below)
    requires below.values == if h == 1 then {} else Below(S, bf, h - 1, NextLevel(S, bf, h, qs))
    ensures Reads(bf, h, ScaleAll(bf, qs), TreeWords(S, bf, h, qs) + rest, d)
    ensures d.values == Below(S, bf, h, qs)
    ensures d.used == |qs| + below.used
  {
    var words, next := LevelWords(S, bf, h, qs), NextLevel(S, bf, h, qs);
    var bases, after := ScaleAll(bf, qs), TreeWords(S, bf, h - 1, next) + rest;
    assert TreeWords(S, bf, h, qs) + rest == words + after;
    assert |words| == |qs| && NextBases(bf, bases, words) == ScaleAll(bf, next) by {
      ReadLevel(S, bf, h, qs);
    }
    d := ReadsLevel(bf, h, bases, words, after, below);
    LevelValues(S, bf, h, qs);
  }

  /** Reading the nodes of a set back gives exactly the values of the set below the nodes that were written,
      and consumes exactly the nodes that were written, whatever follows them. */
  lemma {:induction false} TreeRoundTrip(S: set<nat>, bf: BranchFactor, h: nat, qs: seq<nat>, rest: seq<nat>)
    returns (d: Decoded)
    requires Inhabited(S, bf, h, qs) && Ascending(qs)
    ensures Reads(bf, h, ScaleAll(bf, qs), TreeWords(S, bf, h, qs) + rest, d)
    ensures d.values == if h == 0 then {} else Below(S, bf, h, qs)
    ensures d.used == |TreeWords(S, bf, h, qs)|
  {
    if h == 0 {
      d := Decoded({}, 0);
      ReadsNothing(bf, ScaleAll(bf, qs), TreeWords(S, bf, h, qs) + rest);
    } else {
      var next := NextLevel(S, bf, h, qs);
      assert Inhabited(S, bf, h - 1, next) && Ascending(next) by {
        NextLevelMembers(S, bf, h, qs);
      }
      var below := TreeRoundTrip(S, bf, h - 1, next, rest);
      d := TreeStep(S, bf, h, qs, rest, below);
      LevelWordsFit(S, bf, h, qs);
    }
  }

  /** A tree of height `h` covers the set: the height the encoder computes does. */
  ghost predicate Covers(S: set<nat>, bf: BranchFactor, h: nat) {
    && S != {}
    && forall x :: x in S ==> x < U32_LIMIT - 1 && Shr(x, bf.Exponent(h)) == 0
  }

  lemma RootInhabited(S: set<nat>, bf: BranchFactor, h: nat)
    requires Covers(S, bf, h)
    ensures Inhabited(S, bf, h, [0])
    ensures Below(S, bf, h, [0]) == S
  {
    var x :| x in S;
    assert Shr(x, bf.Exponent(h)) == 0;
    assert Has(S, bf.Exponent(h), 0);
  }

  /** Decoding the bytes of a set gives exactly the set, and exactly the bytes that follow. */
  lemma BytesRoundTrip(S: set<nat>, bf: BranchFactor, h: nat, rest: seq<Byte>)
    requires Covers(S, bf, h) && 0 < h <= bf.MaxDepth()
    ensures DecodeBytes(Encoded(S, bf, h) + rest) == Ok((S, rest))
  {
    var data := Encoded(S, bf, h) + rest;
    var words := TreeWords(S, bf, h, [0]);
    TreeWordsFit(S, bf, h, [0]);
    HeaderRoundTrip(bf, h);
    assert data[0] == EncodeFirstByte(bf, h);
    assert data[1..] == Pack(bf, words) + rest;
    var d := ReadEncoded(S, bf, h, data[1..], rest);
    assert data[1 + PackedLength(bf, d.used)..] == data[1..][PackedLength(bf, d.used)..] == rest;
  }

  lemma ReadEncoded(S: set<nat>, bf: BranchFactor, h: nat, body: seq<Byte>, rest: seq<Byte>) returns (d: Decoded)
    requires Covers(S, bf, h) && WordsFit(bf, TreeWords(S, bf, h, [0])) && body == Pack(bf, TreeWords(S, bf, h, [0])) + rest
    requires h > 0
    ensures Reads(bf, h, [0], Unpack(bf, body), d) && d.values == S
    ensures PackedLength(bf, d.used) <= |body| && body[PackedLength(bf, d.used)..] == rest
  {
    var words, all := TreeWords(S, bf, h, [0]), Unpack(bf, body);
    UnpackPack(bf, words, rest);
    assert all == words + all[|words|..];
    RootInhabited(S, bf, h);
    assert ScaleAll(bf, [0]) == [0];
    d := TreeRoundTrip(S, bf, h, [0], all[|words|..]);
  }

  // ---------- which nodes a level has ----------

  /** The nodes of a tree of height `top` that have `h` levels left, in the order in which they are written. */
  ghost function Layer(S: set<nat>, bf: BranchFactor, top: nat, h: nat): seq<nat>
    requires h <= top
    decreases top - h
  {
    if h == top then [0] else NextLevel(S, bf, h + 1, Layer(S, bf, top, h + 1))
  }

  /** A node is written when it holds a value and its parent is not itself written as zero; a filled ancestor
      further up fills the parent too. */
  ghost predicate Live(S: set<nat>, bf: BranchFactor, top: nat, h: nat, q: nat) {
    Has(S, bf.Exponent(h), q) && (h < top ==> !ZeroCoded(S, bf, h + 1, Shr(q, bf.Log2())))
  }

  lemma LiveStep(S: set<nat>, bf: BranchFactor, top: nat, h: nat, q: nat)
    requires 0 < h < top
    ensures Live(S, bf, top, h, q) <==>
            Live(S, bf, top, h + 1, Shr(q, bf.Log2())) && !ZeroCoded(S, bf, h + 1, Shr(q, bf.Log2()))
            && Has(S, bf.Exponent(h), q)
  {
    var p := Shr(q, bf.Log2());
    if Live(S, bf, top, h, q) {
      HasParent(S, bf, h + 1, q);
      if h + 1 < top && ZeroCoded(S, bf, h + 2, Shr(p, bf.Log2())) {
        FilledChild(S, bf, h + 2, p);
      }
    }
  }

  /** Each level is exactly the ascending list of the live nodes. */
  lemma {:induction false} LayerIsLive(S: set<nat>, bf: BranchFactor, top: nat, h: nat)
    requires Covers(S, bf, top) && 0 < h <= top
    ensures Ascending(Layer(S, bf, top, h))
    ensures forall q: nat :: q in Layer(S, bf, top, h) <==> Live(S, bf, top, h, q)
    decreases top - h
  {
    if h == top {
      RootInhabited(S, bf, h);
      forall q: nat ensures q in [0] <==> Live(S, bf, top, h, q) {
        if Live(S, bf, top, h, q) {
          var x :| x in S && Shr(x, bf.Exponent(h)) == q;
        }
        assert 0 in [0];
      }
    } else {
      var above := Layer(S, bf, top, h + 1);
      LayerIsLive(S, bf, top, h + 1);
      NextLevelMembers(S, bf, h + 1, above);
      forall q: nat ensures q in Layer(S, bf, top, h) <==> Live(S, bf, top, h, q) {
        assert Shr(q, bf.Log2()) in above <==> Live(S, bf, top, h + 1, Shr(q, bf.Log2()));
        LiveStep(S, bf, top, h, q);
      }
    }
  }
}
