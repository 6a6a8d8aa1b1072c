/** SparseBitSet::Decode: one pass over the nodes, level by level. */
module SparseDecoder {
  import opened Bits
  import opened BranchFactors
  import opened BitBuffers
  import opened Wrappers
  import opened SparseTree

  /** Queues the values (at the leaves) or the bases of the next level for the set bits of one node. */
  method QueueSetBits(bf: BranchFactor, nodeBase: U32, bits: nat, leaf: bool, next: seq<U32>, pending: seq<nat>)
    returns (next': seq<U32>, pending': seq<nat>)
    ensures leaf ==> next' == next && pending' == pending + NodeValues(nodeBase, bits, bf.NodeSize())
    ensures !leaf ==> pending' == pending && next' == next + ScaleAll(bf, NodeValues(nodeBase, bits, bf.NodeSize()))
  {
    next', pending' := next, pending;
    for bitIndex := 0 to bf.NodeSize()
      invariant leaf ==> next' == next && pending' == pending + NodeValues(nodeBase, bits, bitIndex)
      invariant !leaf ==> pending' == pending && next' == next + ScaleAll(bf, NodeValues(nodeBase, bits, bitIndex))
    {
      if Bit(bits, bitIndex) {
        if leaf {
          pending' := pending' + [BitOr(nodeBase, bitIndex)];
        } else {
          var base := Scale(bf, BitOr(nodeBase, bitIndex));
          next' := next' + [base];
        }
      }
    }
  }

  /** Reads one node: a zero fills its whole range, otherwise its set bits are queued. */
  method DecodeNode(input: BitInputBuffer, h: nat, nodeBase: U32, out: set<nat>, next: seq<U32>, pending: seq<nat>)
    returns (ok: bool, out': set<nat>, next': seq<U32>, pending': seq<nat>)
    requires input.Valid() && h > 0
    modifies input
    ensures input.Valid() && out <= out'
    ensures ok == (old(input.position) < |input.Nodes()|)
    ensures ok ==>
              var word := input.Nodes()[old(input.position)];
              var read := NodeValues(nodeBase, word, input.branchFactor.NodeSize());
              && input.position == old(input.position) + 1
              && out' == out + (if word == 0 then ZeroRange(input.branchFactor, h, nodeBase) else {})
              && next' == next + (if h == 1 then [] else ScaleAll(input.branchFactor, read))
              && pending' == pending + (if h == 1 then read else [])
  {
    var bf := input.branchFactor;
    out', next', pending' := out, next, pending;
    var bits;
    ok, bits := input.Read();
    if ok {
      if bits == 0 {
        out' := out' + ZeroRange(bf, h, nodeBase);
        ReadZero(nodeBase, bf.NodeSize());
      } else {
        next', pending' := QueueSetBits(bf, nodeBase, bits, h == 1, next, pending);
      }
    }
  }

  /** Reads one level; fails when the bytes run out. */
  method DecodeLevel(input: BitInputBuffer, h: nat, nodeBases: seq<U32>, out: set<nat>)
    returns (ok: bool, out': set<nat>, next: seq<U32>, pending: seq<nat>)
    requires input.Valid() && h > 0
    requires input.position <= |input.Nodes()|
    modifies input
    ensures input.Valid() && out <= out'
    ensures input.position <= |input.Nodes()|
    ensures ok == (old(input.position) + |nodeBases| <= |input.Nodes()|)
    ensures ok ==>
              var words := input.Nodes()[old(input.position)..][..|nodeBases|];
              var read := SetBits(input.branchFactor, nodeBases, words);
              && input.position == old(input.position) + |nodeBases|
              && out' == out + ZeroRanges(input.branchFactor, h, nodeBases, words)
              && next == (if h == 1 then [] else ScaleAll(input.branchFactor, read))
              && pending == (if h == 1 then read else [])
  {
    assert ScaleAll(input.branchFactor, []) == [];
    hide NodeValues, ZeroRange, ScaleAll, BitInputBuffer.Nodes, BitInputBuffer.Valid;
    var bf := input.branchFactor;
    ghost var start := input.position;
    ghost var words := input.Nodes()[start..];
    ghost var zeros: set<nat>, read: seq<nat> := {}, [];
    ok, out', next, pending := true, out, [], [];
    for j := 0 to |nodeBases|
      invariant input.Valid() && input.position == start + j && j <= |words|
      invariant zeros == ZeroRanges(bf, h, nodeBases[..j], words[..j]) && read == SetBits(bf, nodeBases[..j], words[..j])
      invariant out' == out + zeros
      invariant next == (if h == 1 then [] else ScaleAll(bf, read))
      invariant pending == (if h == 1 then read else [])
    {
      ok, out', next, pending := DecodeNode(input, h, nodeBases[j], out', next, pending);
      if !ok {
        return;
      }
      assert words[j] == input.Nodes()[start + j];
      ghost var range := if words[j] == 0 then ZeroRange(bf, h, nodeBases[j]) else {};
      ghost var bits := NodeValues(nodeBases[j], words[j], bf.NodeSize());
      OneMoreNode(bf, h, nodeBases, words, j);
      UnionAssociative(out, zeros, range);
      ScaleConcat(bf, read, bits);
      zeros, read := zeros + range, read + bits;
    }
    assert nodeBases[..|nodeBases|] == nodeBases;
  }

  lemma ScaleConcat(bf: BranchFactor, a: seq<nat>, b: seq<nat>)
    ensures ScaleAll(bf, a + b) == ScaleAll(bf, a) + ScaleAll(bf, b)
  {
  }

  lemma OneMoreNode(bf: BranchFactor, h: nat, bases: seq<U32>, words: seq<nat>, j: nat)
    requires h > 0 && j < |bases| && j < |words|
    ensures SetBits(bf, bases[..j + 1], words[..j + 1])
            == SetBits(bf, bases[..j], words[..j]) + NodeValues(bases[j], words[j], bf.NodeSize())
    ensures ZeroRanges(bf, h, bases[..j + 1], words[..j + 1])
            == ZeroRanges(bf, h, bases[..j], words[..j]) + (if words[j] == 0 then ZeroRange(bf, h, bases[j]) else {})
  {
    assert bases[..j + 1][..j] == bases[..j];
    assert words[..j + 1][..j] == words[..j];
  }

  /** What is read so far (`done`, up to the input's position) and what is left to read make up `total`. */
  ghost predicate Progress(input: BitInputBuffer, h: nat, nodeBases: seq<U32>, done: set<nat>, total: Option<Decoded>)
    requires |input.bits| > 0
    reads input
  {
    var all := input.Nodes();
    input.position <= |all|
    && total == After(done, input.position, DecodeTree(input.branchFactor, h, nodeBases, all[input.position..]))
  }

  /** One round of the loop over the levels. */
  method NextLevelDown(input: BitInputBuffer, h: nat, nodeBases: seq<U32>, out: set<nat>,
                       ghost base: set<nat>, ghost before: set<nat>, ghost total: Option<Decoded>)
    returns (ok: bool, out': set<nat>, next: seq<U32>, pending: seq<nat>, ghost done: set<nat>)
    requires input.Valid() && out == base + before && Progress(input, h + 1, nodeBases, before, total)
    modifies input
    ensures input.Valid() && out <= out'
    ensures !ok ==> total == None
    ensures ok ==> Progress(input, h, next, done, total) && out' + AscendingPrefix(pending) == base + done
    ensures ok && h > 0 ==> pending == []
  {
    ghost var bf := input.branchFactor;
    ghost var all := input.Nodes();
    ghost var start := input.position;
    done := before;
    ok, out', next, pending := DecodeLevel(input, h + 1, nodeBases, out);
    if ok {
      ghost var words := all[start..][..|nodeBases|];
      LevelSets(bf, h + 1, nodeBases, words, out, base, before);
      done := before + LevelSet(bf, h + 1, nodeBases, words);
      assert next == if h + 1 == 1 then [] else NextBases(bf, nodeBases, words);
      DecodeStep(bf, h + 1, h, nodeBases, next, all, start, input.position, before, done, total);
    }
  }

  /** The nodes of the tree, level by level, then the bulk insertion of the leaf values. */
  method DecodeLevels(input: BitInputBuffer, treeHeight: nat, out: set<nat>) returns (ok: bool, out': set<nat>)
    requires input.Valid() && input.position == 0
    modifies input
    ensures input.Valid() && out <= out'
    ensures match DecodeTree(input.branchFactor, treeHeight, [0], input.Nodes())
            case Some(d) => ok && out' == out + d.values && input.position == d.used
            case None => !ok
  {
    hide AscendingPrefix, BitInputBuffer.Valid;
    var nodeBases: seq<U32> := [0];
    var pending: seq<nat> := [];
    ghost var all := input.Nodes();
    ghost var total := DecodeTree(input.branchFactor, treeHeight, [0], all);
    ghost var done: set<nat> := {};
    assert Progress(input, treeHeight, nodeBases, done, total) by {
      assert all[0..] == all;
      AfterNothing(total);
    }
    EmptyPrefix();
    out' := out;
    var levelsLeft: nat := treeHeight;
    while levelsLeft > 0
      invariant input.Valid() && out <= out'
      invariant levelsLeft > 0 ==> pending == []
      invariant out' + AscendingPrefix(pending) == out + done
      invariant Progress(input, levelsLeft, nodeBases, done, total)
    {
      levelsLeft := levelsLeft - 1;
      ok, out', nodeBases, pending, done := NextLevelDown(input, levelsLeft, nodeBases, out', out, done, total);
      if !ok {
        return;
      }
    }
    ok := true;
    assert total == Some(Decoded(done, input.position));
    if pending != [] {
      out' := out' + AscendingPrefix(pending);
    }
  }

  /** The decoder adds to `out` exactly the values its input describes and returns the bytes it did not use. */
  method Decode(sparseBitSet: seq<Byte>, out: set<nat>) returns (r: Result<seq<Byte>>, out': set<nat>)
    ensures match DecodeBytes(sparseBitSet)
            case Ok((values, rest)) => r == Ok(rest) && out' == out + values
            case Error => r == Error && out <= out'
    ensures sparseBitSet == [] ==> r == Ok([]) && out' == out
  {
    if |sparseBitSet| == 0 {
      return Ok(sparseBitSet), out;
    }
    var input := new BitInputBuffer(sparseBitSet);
    if input.depth > input.branchFactor.MaxDepth() {
      return Error, out;
    }
    var ok;
    ok, out' := DecodeLevels(input, input.depth, out);
    if !ok {
      return Error, out';
    }
    var rest := input.Remaining();
    r := Ok(rest);
  }

  /** A result with values and nodes that were read before it. */
  ghost function After(done: set<nat>, used: nat, r: Option<Decoded>): Option<Decoded> {
    match r
    case None => None
    case Some(d) => Some(Decoded(done + d.values, used + d.used))
  }

  lemma UnionAssociative(a: set<nat>, b: set<nat>, c: set<nat>)
    ensures a + (b + c) == a + b + c
  {
  }

  lemma LevelSets(bf: BranchFactor, h: nat, bases: seq<U32>, words: seq<nat>, before: set<nat>, out: set<nat>, done: set<nat>)
    requires h > 0 && |bases| == |words| && before == out + done
    ensures before + ZeroRanges(bf, h, bases, words)
            + AscendingPrefix(if h == 1 then SetBits(bf, bases, words) else [])
            == out + (done + LevelSet(bf, h, bases, words))
  {
    assert AscendingPrefix([]) == {};
  }

  lemma EmptyPrefix()
    ensures AscendingPrefix([]) == {}
  {
  }

  lemma AfterNothing(r: Option<Decoded>)
    ensures After({}, 0, r) == r
  {
    if r.Some? {
      assert {} + r.value.values == r.value.values;
    }
  }

  lemma AfterAfter(a: set<nat>, m: nat, b: set<nat>, n: nat, r: Option<Decoded>)
    ensures After(a, m, After(b, n, r)) == After(a + b, m + n, r)
  {
    if r.Some? {
      assert a + (b + r.value.values) == a + b + r.value.values;
    }
  }

  /** The values of one level, apart from those below it. */
  ghost function LevelSet(bf: BranchFactor, h: nat, bases: seq<U32>, words: seq<nat>): set<nat>
    requires h > 0 && |bases| == |words|
  {
    ZeroRanges(bf, h, bases, words) + (if h == 1 then AscendingPrefix(SetBits(bf, bases, words)) else {})
  }

  lemma DecodeStep(bf: BranchFactor, h: nat, below: nat, bases: seq<U32>, next: seq<U32>, all: seq<nat>,
                   start: nat, end: nat, before: set<nat>, done: set<nat>, total: Option<Decoded>)
    requires h == below + 1 && end == start + |bases| <= |all|
    requires next == if h == 1 then [] else NextBases(bf, bases, all[start..][..|bases|])
    requires done == before + LevelSet(bf, h, bases, all[start..][..|bases|])
    requires total == After(before, start, DecodeTree(bf, h, bases, all[start..]))
    ensures total == After(done, end, DecodeTree(bf, below, next, all[end..]))
  {
    var words := all[start..][..|bases|];
    var r := DecodeTree(bf, below, NextBases(bf, bases, words), all[start..][|bases|..]);
    assert all[start..][|bases|..] == all[end..];
    assert DecodeTree(bf, h, bases, all[start..]) == After(LevelSet(bf, h, bases, words), |bases|, r);
    AfterAfter(before, start, LevelSet(bf, h, bases, words), |bases|, r);
  }
}
