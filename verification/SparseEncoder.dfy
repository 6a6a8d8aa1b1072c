/** SparseBitSet::Encode: one pass over the sorted values per layer, driven by a small state machine. */
module SparseEncoder {
  import opened Bits
  import opened BranchFactors
  import opened BitBuffers
  import opened IntSets
  import opened SparseTree
  import opened FilledNodes
  import opened BranchFactorChoice
  import opened EncoderSteps
  import opened Wrappers

  datatype EncodeState = START | BUILDING_NORMAL_NODE | SKIPPING_FILLED_NODE | END | ERROR

  datatype EncodeSymbol =
    | NEW_NORMAL_NODE | EXISTING_NORMAL_NODE | NEW_FILLED_NODE | EXISTING_FILLED_NODE | END_OF_VALUES | INVALID

  const INVALID_CP: U32 := U32_LIMIT - 1

  /** The bases of the blocks `cs` with exponent e. */
  ghost function BasesOf(e: nat, cs: seq<nat>): seq<nat> {
    seq(|cs|, i requires 0 <= i < |cs| => Shl(cs[i], e))
  }

  /** The bases queued for a layer: those of its nodes, in order. */
  ghost predicate QueuedFor(S: set<nat>, bf: BranchFactor, top: nat, h: nat, nodeBases: seq<nat>)
    requires h <= top
  {
    nodeBases == BasesOf(bf.Exponent(h), Layer(S, bf, top, h))
  }

  /** A layer has been encoded: its nodes follow those written before it, and its children are queued. */
  ghost predicate LayerWritten(S: set<nat>, bf: BranchFactor, top: nat, h: nat, before: seq<nat>, after: seq<nat>, next: seq<nat>)
    requires 0 < h <= top
  {
    && after == before + LevelWords(S, bf, h, Layer(S, bf, top, h))
    && next == if h == 1 then [] else BasesOf(bf.Exponent(h - 1), NextLevel(S, bf, h, Layer(S, bf, top, h)))
  }

  class EncodeContext {
    const layer: nat
    const branchFactor: BranchFactor
    const treeHeight: nat
    const valuesPerBitLog2: nat
    const nodeSize: nat
    const filledLevels: map<nat, nat>
    const nodeBases: seq<nat>
    const bitBuffer: BitOutputBuffer
    var nextNodeBase: nat
    var nodeBase: U32
    var nodeMax: nat
    var nodeMask: U32
    var filledMax: U32
    var nextNodeBases: seq<nat>
    ghost const S: set<nat>
    ghost const before: seq<nat>  // the nodes that were written before this layer

    /** The nodes of this layer. */
    ghost function Nodes(): seq<nat>
      requires layer < treeHeight
    {
      Layer(S, branchFactor, treeHeight, treeHeight - layer)
    }

    /** What never changes while the layer is encoded. */
    ghost predicate Fixed() {
      && layer < treeHeight
      && Covers(S, branchFactor, treeHeight)
      && valuesPerBitLog2 == branchFactor.Exponent(treeHeight - layer - 1)
      && nodeSize == Pow2(branchFactor.Exponent(treeHeight - layer))
      && FilledLevels(S, branchFactor, treeHeight, filledLevels)
      && nodeBases == BasesOf(branchFactor.Exponent(treeHeight - layer), Nodes())
      && bitBuffer.branchFactor == branchFactor
    }

    /** The first n nodes have been written; below them, and in `partial`, lie the bases queued for the next layer. */
    ghost predicate Emitted(n: nat, partial: seq<nat>)
      requires Fixed()
      reads this, bitBuffer
    {
      var h := treeHeight - layer;
      && n <= |Nodes()|
      && bitBuffer.Valid()
      && bitBuffer.words == before + LevelWords(S, branchFactor, h, Nodes()[..n])
      && nextNodeBases == if h == 1 then []
                          else BasesOf(valuesPerBitLog2, NextLevel(S, branchFactor, h, Nodes()[..n]) + partial)
    }

    /** No node is open. */
    ghost predicate Closed(prior: int)
      requires Fixed()
      reads this, bitBuffer
    {
      && Between(Nodes(), branchFactor.Exponent(treeHeight - layer), nextNodeBase, prior)
      && nodeMask == 0
      && Emitted(nextNodeBase, [])
    }

    /** The current node, with index q, has been built from its first n children. */
    ghost predicate Open(q: nat, n: nat)
      requires Fixed()
      reads this, bitBuffer
    {
      var h := treeHeight - layer;
      var f := branchFactor.FirstChild(q);
      && 0 < nextNodeBase <= |Nodes()| && q == Nodes()[nextNodeBase - 1]
      && !ZeroCoded(S, branchFactor, h, q)
      && nodeBase == Shl(q, branchFactor.Exponent(h)) && nodeMax == nodeBase + nodeSize - 1
      && n <= branchFactor.NodeSize()
      && nodeMask == MaskUpTo(S, valuesPerBitLog2, f, n)
      && Emitted(nextNodeBase - 1, ChildrenUpTo(S, valuesPerBitLog2, f, n))
    }

    /** The current node has been built from its values up to `prior`. */
    ghost predicate Building(prior: int)
      requires Fixed()
      reads this, bitBuffer
    {
      && Between(Nodes(), branchFactor.Exponent(treeHeight - layer), nextNodeBase, prior)
      && prior >= 0 && prior in S
      && var q, c := Shr(prior, branchFactor.Exponent(treeHeight - layer)), Shr(prior, valuesPerBitLog2);
         branchFactor.FirstChild(q) <= c && Open(q, c + 1 - branchFactor.FirstChild(q))
    }

    /** Every value up to filledMax belongs to a node that has been written or is not written in this layer. */
    ghost predicate Skipping(prior: int)
      requires Fixed()
      reads this, bitBuffer
    {
      var e := branchFactor.Exponent(treeHeight - layer);
      && prior >= 0 && Closed(prior)
      && (nextNodeBase < |Nodes()| ==> forall x :: x in S && x <= filledMax ==> Shr(x, e) < Nodes()[nextNodeBase])
      && (nextNodeBase > 0 ==> forall x: nat :: x > filledMax ==> Nodes()[nextNodeBase - 1] < Shr(x, e))
    }

    /** The state of the machine after the value `prior` (-1: before the first value). */
    ghost predicate Inv(state: EncodeState, prior: int)
      requires Fixed()
      reads this, bitBuffer
    {
      match state
      case START => prior == -1 && Closed(prior) && nextNodeBase == 0
      case BUILDING_NORMAL_NODE => Building(prior)
      case SKIPPING_FILLED_NODE => Skipping(prior)
      case _ => false
    }

    constructor (layer: nat, branchFactor: BranchFactor, treeHeight: nat, filledLevels: map<nat, nat>,
                 nodeBases: seq<nat>, bitBuffer: BitOutputBuffer, ghost S: set<nat>)
      requires layer < treeHeight && Covers(S, branchFactor, treeHeight)
      requires FilledLevels(S, branchFactor, treeHeight, filledLevels)
      requires QueuedFor(S, branchFactor, treeHeight, treeHeight - layer, nodeBases)
      requires bitBuffer.Valid() && bitBuffer.branchFactor == branchFactor
      ensures Fixed() && Inv(START, -1)
      ensures this.layer == layer && this.branchFactor == branchFactor && this.treeHeight == treeHeight
      ensures this.bitBuffer == bitBuffer && this.S == S && before == bitBuffer.words
    {
      this.layer, this.branchFactor, this.treeHeight := layer, branchFactor, treeHeight;
      this.valuesPerBitLog2 := branchFactor.Log2() * (treeHeight - layer - 1);
      this.nodeSize := Shl(branchFactor.NodeSize(), branchFactor.Log2() * (treeHeight - layer - 1));
      this.filledLevels, this.nodeBases, this.bitBuffer := filledLevels, nodeBases, bitBuffer;
      nextNodeBase := 0;
      nodeBase, nodeMax, nodeMask, filledMax := INVALID_CP, INVALID_CP, 0, INVALID_CP;
      nextNodeBases := [];
      this.S := S;
      this.before := bitBuffer.words;
      new;
      branchFactor.ExponentIsProduct(treeHeight - layer - 1);
      ShlOfOne(branchFactor.Log2());
      ShlShl(1, branchFactor.Log2(), valuesPerBitLog2);
      ShlOfOne(branchFactor.Exponent(treeHeight - layer));
      assert Nodes()[..0] == [];
      assert BasesOf(valuesPerBitLog2, []) == [];
    }

    method OverrideIfFilled(cp: U32) returns (symbol: EncodeSymbol)
      requires Fixed() && cp in S
      ensures symbol == Classified(cp)
    {
      var twig := Shr(cp, branchFactor.TwigSizeLog2());
      Classify(S, branchFactor, treeHeight, filledLevels, layer, cp);
      if twig in filledLevels {
        var filledLevel := filledLevels[twig];
        if layer == filledLevel {
          return NEW_FILLED_NODE;
        } else if layer > filledLevel {
          return EXISTING_FILLED_NODE;
        }
      }
      return NEW_NORMAL_NODE;
    }

    /** What a value means for this layer, apart from the node that is open. */
    ghost function Classified(cp: nat): EncodeSymbol
      requires Fixed()
    {
      var h := treeHeight - layer;
      var q := Shr(cp, branchFactor.Exponent(h));
      if !Live(S, branchFactor, treeHeight, h, q) then EXISTING_FILLED_NODE
      else if ZeroCoded(S, branchFactor, h, q) then NEW_FILLED_NODE
      else NEW_NORMAL_NODE
    }

    /** The value's node comes after all the nodes taken from the queue. */
    ghost predicate NewNode(cp: nat)
      requires Fixed()
      reads this
    {
      nextNodeBase <= |Nodes()|
      && (nextNodeBase > 0 ==> Nodes()[nextNodeBase - 1] < Shr(cp, branchFactor.Exponent(treeHeight - layer)))
    }

    method StartFilledNode(ghost prior: int, ghost cp: nat)
      requires Fixed() && Closed(prior) && NextValue(S, prior, cp) && NewNode(cp) && Classified(cp) == NEW_FILLED_NODE
      modifies this, bitBuffer
      ensures Skipping(cp)
    {
      hide Shr, Shl, Pow2, Layer, LevelWords, NextLevel, Covers, FilledLevels, Filled, Has, BitOutputBuffer.Valid, Live,
           BranchFactor.FirstChild, BranchFactor.Exponent, MaskUpTo, ChildrenUpTo;
      ghost var h, q := treeHeight - layer, Shr(cp, branchFactor.Exponent(treeHeight - layer));
      NextLive(S, branchFactor, treeHeight, h, nextNodeBase, prior, cp);
      FilledNodeFits(S, branchFactor, treeHeight, h, nextNodeBase);
      EmitOne(S, branchFactor, h, Nodes(), nextNodeBase);
      var base := nodeBases[nextNodeBase];
      nextNodeBase := nextNodeBase + 1;
      bitBuffer.Append(0);
      filledMax := base + nodeSize - 1;
      EndOfNode(S, branchFactor, treeHeight, h, nextNodeBase - 1, filledMax);
    }

    /** Sets the bit of the sub-range that the value falls in, and queues its base the first time. */
    method UpdateNodeBit(cp: nat, ghost q: nat, ghost n: nat)
      requires Fixed() && cp in S && Shr(cp, branchFactor.Exponent(treeHeight - layer)) == q && Open(q, n)
      requires AddsBit(q, n, cp)
      modifies this`nodeMask, this`nextNodeBases
      ensures Open(q, BitOf(q, cp) + 1)
    {
      hide Shr, Shl, Pow2, Layer, LevelWords, NextLevel, MaskUpTo, ChildrenUpTo, Covers, FilledLevels, Filled, Live, Bit,
           BitOr, BasesOf, NoneHas, BitOutputBuffer.Valid, BranchFactor.FirstChild;
      ghost var h, f := treeHeight - layer, branchFactor.FirstChild(q);
      BitIndex(branchFactor, h, q, cp);
      var bitIndex := Shr(cp - nodeBase, valuesPerBitLog2);
      MaskBits(S, valuesPerBitLog2, f, n);
      assert Bit(nodeMask, bitIndex) <==> bitIndex < n by {
        if bitIndex < n { assert Has(S, valuesPerBitLog2, f + bitIndex); }
      }
      if !Bit(nodeMask, bitIndex) {
        SetNextBit(S, valuesPerBitLog2, f, n, bitIndex, cp);
        MaskFits(S, branchFactor, valuesPerBitLog2, f, bitIndex + 1);
        nodeMask := BitOr(nodeMask, Shl(1, bitIndex));
        if valuesPerBitLog2 > 0 {
          QueueOne(valuesPerBitLog2, NextLevel(S, branchFactor, h, Nodes()[..nextNodeBase - 1]),
                   ChildrenUpTo(S, valuesPerBitLog2, f, n), f + bitIndex);
          nextNodeBases := nextNodeBases + [BitOr(nodeBase, Shl(bitIndex, valuesPerBitLog2))];
        }
      }
    }

    ghost function BitOf(q: nat, cp: nat): int {
      Shr(cp, valuesPerBitLog2) - branchFactor.FirstChild(q)
    }

    /** The value falls into the last of the first n children, or no child between holds a value. */
    ghost predicate AddsBit(q: nat, n: nat, cp: nat) {
      var f, i := branchFactor.FirstChild(q), BitOf(q, cp);
      n == i + 1 || (n <= i && NoneHas(S, valuesPerBitLog2, f + n, f + i))
    }

    method StartNewNormalNode(cp: nat, ghost prior: int)
      requires Fixed() && Closed(prior) && NextValue(S, prior, cp) && NewNode(cp) && Classified(cp) == NEW_NORMAL_NODE
      modifies this
      ensures Building(cp)
    {
      hide Shr, Shl, Pow2, Layer, LevelWords, NextLevel, Covers, FilledLevels, Filled, Has, Live, NoneHas,
           BitOutputBuffer.Valid, BranchFactor.FirstChild, BranchFactor.Exponent;
      ghost var h, q := treeHeight - layer, Shr(cp, branchFactor.Exponent(treeHeight - layer));
      NextLive(S, branchFactor, treeHeight, h, nextNodeBase, prior, cp);
      NodeFits(S, branchFactor, treeHeight, h, nextNodeBase);
      nodeBase := nodeBases[nextNodeBase];
      nextNodeBase := nextNodeBase + 1;
      nodeMax := nodeBase + nodeSize - 1;
      filledMax := INVALID_CP;
      FirstInNode(S, branchFactor, treeHeight, h, nextNodeBase - 1, prior, cp);
      UpdateNodeBit(cp, q, 0);
      BetweenNodes(S, branchFactor, treeHeight, h, nextNodeBase, cp);
    }

    method UpdateNormalNode(cp: nat, ghost prior: int)
      requires Fixed() && Building(prior) && NextValue(S, prior, cp)
      requires Shr(cp, branchFactor.Exponent(treeHeight - layer)) == Shr(prior, branchFactor.Exponent(treeHeight - layer))
      modifies this`nodeMask, this`nextNodeBases
      ensures Building(cp)
    {
      hide Shr, Shl, Pow2, Layer, LevelWords, NextLevel, Covers, FilledLevels, Filled, Has, Live, NoneHas, MaskUpTo,
           ChildrenUpTo, BitOutputBuffer.Valid, BranchFactor.FirstChild, BranchFactor.Exponent;
      ghost var h, q := treeHeight - layer, Shr(cp, branchFactor.Exponent(treeHeight - layer));
      NextInNode(S, branchFactor, h, q, prior, cp);
      UpdateNodeBit(cp, q, BitOf(q, prior) + 1);
    }

    method EndNormalNode(ghost prior: int)
      requires Fixed() && Building(prior)
      requires forall x :: x in S && x > prior ==>
                 Shr(x, branchFactor.Exponent(treeHeight - layer)) > Shr(prior, branchFactor.Exponent(treeHeight - layer))
      modifies this, bitBuffer
      ensures Closed(prior) && nextNodeBase == old(nextNodeBase)
    {
      hide Shr, Shl, Pow2, Layer, LevelWords, NextLevel, Covers, FilledLevels, Filled, Has, Live, MaskUpTo, Word, Children,
           ChildrenUpTo, BitOutputBuffer.Valid, BranchFactor.FirstChild, BranchFactor.Exponent;
      ghost var h, q := treeHeight - layer, Shr(prior, branchFactor.Exponent(treeHeight - layer));
      NodeComplete(S, branchFactor, h, q, prior);
      EmitOne(S, branchFactor, h, Nodes(), nextNodeBase - 1);
      WordFits(S, branchFactor, h, q);
      ghost var written := LevelWords(S, branchFactor, h, Nodes()[..nextNodeBase - 1]);
      assert nodeMask % branchFactor.WordLimit() == Word(S, branchFactor, h, q);
      bitBuffer.Append(nodeMask);
      assert bitBuffer.words == before + (written + [Word(S, branchFactor, h, q)]);
      nodeMask := 0;
      nodeBase, nodeMax, filledMax := INVALID_CP, INVALID_CP, INVALID_CP;
      assert Emitted(nextNodeBase, []);
    }

    /** Moves filledMax across all the filled nodes in a row that an earlier layer has written. */
    method SkipExistingFilledNode(cp: nat, ghost prior: int)
      requires Fixed() && Closed(prior) && NextValue(S, prior, cp) && NewNode(cp) && Classified(cp) == EXISTING_FILLED_NODE
      requires prior >= 0 ==> prior in S && Classified(prior) != EXISTING_FILLED_NODE
      modifies this`filledMax
      ensures Skipping(cp)
    {
      hide Shr, Shl, Pow2, Layer, LevelWords, NextLevel, Covers, FilledLevels, Filled, Has, Live, NotWritten, StartsFilledNode,
           BitOutputBuffer.Valid, BranchFactor.FirstChild, BranchFactor.Exponent, MaskUpTo, ChildrenUpTo;
      ghost var h, e2 := treeHeight - layer, branchFactor.Exponent(2);
      var twig: nat := Shr(cp, branchFactor.TwigSizeLog2());
      Classify(S, branchFactor, treeHeight, filledLevels, layer, cp);
      SkipStart(S, branchFactor, treeHeight, filledLevels, layer, prior, cp);
      var onFilled := true;
      while onFilled
        invariant onFilled ==> twig in filledLevels && filledLevels[twig] < layer
                               && StartsFilledNode(branchFactor, treeHeight, filledLevels, twig)
        invariant NotWritten(S, branchFactor, treeHeight, h, cp, Shl(twig, e2))
        invariant if cp < Shl(twig, e2) then Shl(twig, e2) < U32_LIMIT else onFilled && twig == Shr(cp, e2)
        invariant twig < U32_LIMIT
        decreases onFilled, U32_LIMIT - twig
      {
        var filledDepth := filledLevels[twig];
        SkipStep(S, branchFactor, treeHeight, filledLevels, layer, cp, twig);
        var twigSize := Shl(1, (treeHeight - filledDepth - 2) * branchFactor.Log2());
        twig := twig + twigSize;
        onFilled := twig in filledLevels && filledLevels[twig] < layer;
      }
      filledMax := Shl(twig, branchFactor.TwigSizeLog2()) - 1;
      SkipEnd(S, branchFactor, treeHeight, h, nextNodeBase, prior, cp, filledMax);
    }

    /** What a symbol says about the value it was parsed from. */
    ghost predicate Parsed(state: EncodeState, prior: int, cp: nat, symbol: EncodeSymbol)
      requires Fixed()
      reads this
    {
      var e := branchFactor.Exponent(treeHeight - layer);
      if state == BUILDING_NORMAL_NODE && prior >= 0 && Shr(cp, e) == Shr(prior, e) then symbol == EXISTING_NORMAL_NODE
      else if state == SKIPPING_FILLED_NODE && cp <= filledMax then symbol == EXISTING_FILLED_NODE
      else symbol == Classified(cp) && NewNode(cp)
    }

    method ParseCodepoint(cp: U32, state: EncodeState, ghost prior: int) returns (symbol: EncodeSymbol)
      requires Fixed() && Inv(state, prior) && NextValue(S, prior, cp)
      ensures Parsed(state, prior, cp, symbol)
    {
      hide Shr, Shl, Pow2, Layer, Covers, FilledLevels, Live, ZeroCoded, Classified, Emitted, MaskUpTo, ChildrenUpTo,
           BranchFactor.Exponent;
      ghost var e := branchFactor.Exponent(treeHeight - layer);
      symbol := INVALID;
      match state {
        case START =>
          symbol := OverrideIfFilled(cp);
        case BUILDING_NORMAL_NODE =>
          SameNodeRange(e, prior, cp);
          if cp <= nodeMax {
            symbol := EXISTING_NORMAL_NODE;
          } else {
            symbol := OverrideIfFilled(cp);
          }
        case SKIPPING_FILLED_NODE =>
          if cp <= filledMax {
            symbol := EXISTING_FILLED_NODE;  // keep skipping
          } else {
            symbol := OverrideIfFilled(cp);
          }
        case END =>
        case ERROR =>
      }
    }

    lemma NotTheEnd(state: EncodeState, prior: int, cp: nat, symbol: EncodeSymbol)
      requires Fixed() && Parsed(state, prior, cp, symbol)
      ensures symbol != END_OF_VALUES
    {
    }

    /** All nodes of the layer have been written. */
    ghost predicate Finished()
      requires Fixed()
      reads this, bitBuffer
    {
      Emitted(|Nodes()|, [])
    }

    lemma FinishedLayer()
      requires Fixed() && Finished()
      ensures bitBuffer.Valid()
      ensures LayerWritten(S, branchFactor, treeHeight, treeHeight - layer, before, bitBuffer.words, nextNodeBases)
    {
      var nodes := Nodes();
      assert nodes[..|nodes|] == nodes;
      assert NextLevel(S, branchFactor, treeHeight - layer, nodes) + [] == NextLevel(S, branchFactor, treeHeight - layer, nodes);
    }

    /** One step of the machine. It is never in error: it stays consistent after every value and ends complete. */
    method UpdateState(state: EncodeState, symbol: EncodeSymbol, cp: U32, ghost prior: int) returns (state': EncodeState)
      requires Fixed() && Inv(state, prior)
      requires if symbol == END_OF_VALUES then prior >= 0 && forall y :: y in S ==> y <= prior
               else NextValue(S, prior, cp) && Parsed(state, prior, cp, symbol)
      modifies this, bitBuffer
      ensures symbol == END_OF_VALUES ==> state' == END && Finished()
      ensures symbol != END_OF_VALUES ==> Inv(state', cp)
    {
      hide Shr, Shl, Pow2, Layer, Covers, FilledLevels, Live, ZeroCoded, Emitted, MaskUpTo, ChildrenUpTo, Between,
           BranchFactor.Exponent, BranchFactor.FirstChild;
      state' := ERROR;
      if state == START {
        match symbol {
          case NEW_NORMAL_NODE =>
            StartNewNormalNode(cp, prior);
            state' := BUILDING_NORMAL_NODE;
          case NEW_FILLED_NODE =>
            StartFilledNode(prior, cp);
            state' := SKIPPING_FILLED_NODE;
          case EXISTING_FILLED_NODE =>
            SkipExistingFilledNode(cp, prior);
            state' := SKIPPING_FILLED_NODE;
          case _ =>
        }
      } else if state == BUILDING_NORMAL_NODE {
        LeavesNode(prior, cp);
        match symbol {
          case NEW_NORMAL_NODE =>
            EndNormalNode(prior);
            StartNewNormalNode(cp, prior);
            state' := BUILDING_NORMAL_NODE;
          case EXISTING_NORMAL_NODE =>
            UpdateNormalNode(cp, prior);
            state' := BUILDING_NORMAL_NODE;
          case NEW_FILLED_NODE =>
            EndNormalNode(prior);
            StartFilledNode(prior, cp);
            state' := SKIPPING_FILLED_NODE;
          case EXISTING_FILLED_NODE =>
            EndNormalNode(prior);
            SkipExistingFilledNode(cp, prior);
            state' := SKIPPING_FILLED_NODE;
          case END_OF_VALUES =>
            EndNormalNode(prior);
            AllDone(S, branchFactor, treeHeight, treeHeight - layer, nextNodeBase, prior);
            state' := END;
          case _ =>
        }
      } else if state == SKIPPING_FILLED_NODE {
        match symbol {
          case NEW_NORMAL_NODE =>
            StartNewNormalNode(cp, prior);
            state' := BUILDING_NORMAL_NODE;
          case NEW_FILLED_NODE =>
            StartFilledNode(prior, cp);
            state' := SKIPPING_FILLED_NODE;
          case EXISTING_FILLED_NODE =>
            StillSkipping(prior, cp);  // ignore the value
            state' := SKIPPING_FILLED_NODE;
          case END_OF_VALUES =>
            AllDone(S, branchFactor, treeHeight, treeHeight - layer, nextNodeBase, prior);
            state' := END;
          case _ =>
        }
      }
    }

    /** Feeds all the values, then the end, to the machine. */
    method EncodeValues(codepoints: seq<U32>)
      requires Fixed() && Inv(START, -1) && Ascending(codepoints) && S == ToSet(codepoints) && S != {}
      modifies this, bitBuffer
      ensures Finished()
    {
      LastIsMax(codepoints);
      hide Fixed, Inv, Finished, NextValue, Parsed, Ascending, ToSet;
      var state := START;
      ghost var prior: int := -1;
      for i := 0 to |codepoints|
        invariant Fixed() && Inv(state, prior)
        invariant prior == if i == 0 then -1 else codepoints[i - 1]
      {
        var cp := codepoints[i];
        NextCodepoint(codepoints, i, prior);
        var input := ParseCodepoint(cp, state, prior);
        NotTheEnd(state, prior, cp, input);
        state := UpdateState(state, input, cp, prior);
        prior := cp;
      }
      state := UpdateState(state, END_OF_VALUES, INVALID_CP, prior);
    }

    lemma NextCodepoint(codepoints: seq<U32>, i: nat, prior: int)
      requires Ascending(codepoints) && S == ToSet(codepoints) && i < |codepoints|
      requires prior == if i == 0 then -1 else codepoints[i - 1]
      ensures NextValue(S, prior, codepoints[i])
    {
      NextInScan(codepoints, i, prior);
    }

    /** A value outside the open node lies after it, as do all later ones; the value before it is in a written node. */
    lemma LeavesNode(prior: int, cp: nat)
      requires Fixed() && Building(prior)
      ensures var e := branchFactor.Exponent(treeHeight - layer);
              NextValue(S, prior, cp) && Shr(cp, e) != Shr(prior, e) ==>
                forall x :: x in S && x > prior ==> Shr(x, e) > Shr(prior, e)
      ensures Classified(prior) == NEW_NORMAL_NODE
    {
      hide Emitted, Covers, Layer, LevelWords, NextLevel, FilledLevels, Live, ZeroCoded, BranchFactor.Exponent, Shr, NextValue, MaskUpTo, ChildrenUpTo, BasesOf;
      var e := branchFactor.Exponent(treeHeight - layer);
      var y := NodeHasValue(S, branchFactor, treeHeight, treeHeight - layer, nextNodeBase - 1);
      if NextValue(S, prior, cp) && Shr(cp, e) != Shr(prior, e) {
        AllLater(S, prior, cp, e);
      }
    }

    /** An ignored value changes nothing. */
    lemma StillSkipping(prior: int, cp: nat)
      requires Fixed() && Skipping(prior) && NextValue(S, prior, cp)
      requires cp > filledMax ==> Classified(cp) == EXISTING_FILLED_NODE
      ensures Skipping(cp)
    {
      hide Shr, Emitted, Layer, LevelWords, NextLevel, Covers, BranchFactor.Exponent, FilledLevels, Live, ZeroCoded;
      var e, h := branchFactor.Exponent(treeHeight - layer), treeHeight - layer;
      ShrMonotonic(prior, cp, e);
      if nextNodeBase < |Nodes()| && cp > filledMax {
        forall y | y in S && y < cp ensures Shr(y, e) < Nodes()[nextNodeBase] {
          ShrMonotonic(y, prior, e);
        }
        NotLiveBefore(S, branchFactor, treeHeight, h, nextNodeBase, cp);
      }
    }
  }

  /** When the next value lies in another node, all later ones do. */
  lemma AllLater(S: set<nat>, prior: nat, cp: nat, e: nat)
    requires NextValue(S, prior, cp) && Shr(cp, e) != Shr(prior, e)
    ensures forall x :: x in S && x > prior ==> Shr(x, e) > Shr(prior, e)
  {
    hide Shr;
    forall x | x in S && x > prior ensures Shr(x, e) > Shr(prior, e) {
      ShrMonotonic(prior, cp, e);
      ShrMonotonic(cp, x, e);
    }
  }

  /** One more written node adds its word, and its children to the next layer. */
  lemma EmitOne(S: set<nat>, bf: BranchFactor, h: nat, qs: seq<nat>, n: nat)
    requires h > 0 && n < |qs|
    ensures LevelWords(S, bf, h, qs[..n + 1]) == LevelWords(S, bf, h, qs[..n]) + [Word(S, bf, h, qs[n])]
    ensures NextLevel(S, bf, h, qs[..n + 1]) == NextLevel(S, bf, h, qs[..n]) + Children(S, bf, h, qs[n])
  {
    assert qs[..n + 1][..n] == qs[..n];
  }

  lemma NodeFits(S: set<nat>, bf: BranchFactor, top: nat, h: nat, n: nat)
    requires Covers(S, bf, top) && 0 < h <= top && n < |Layer(S, bf, top, h)|
    ensures Shl(Layer(S, bf, top, h)[n], bf.Exponent(h)) < U32_LIMIT - 1
  {
    var q := Layer(S, bf, top, h)[n];
    var y := NodeHasValue(S, bf, top, h, n);
    assert Inhabited(S, bf, h, [q]);
    BasesFit(S, bf, h, q);
  }

  lemma FilledNodeFits(S: set<nat>, bf: BranchFactor, top: nat, h: nat, n: nat)
    requires Covers(S, bf, top) && 0 < h <= top && n < |Layer(S, bf, top, h)|
    requires ZeroCoded(S, bf, h, Layer(S, bf, top, h)[n])
    ensures Shl(Layer(S, bf, top, h)[n], bf.Exponent(h)) + Pow2(bf.Exponent(h)) < U32_LIMIT
  {
    FilledBelowLimit(S, bf.Exponent(h), Layer(S, bf, top, h)[n]);
  }

  /** The last value of a node separates it from the nodes after it. */
  lemma EndOfNode(S: set<nat>, bf: BranchFactor, top: nat, h: nat, n: nat, last: nat)
    requires Covers(S, bf, top) && 0 < h <= top && n < |Layer(S, bf, top, h)|
    requires last + 1 == Shl(Layer(S, bf, top, h)[n], bf.Exponent(h)) + Pow2(bf.Exponent(h))
    ensures forall x: nat :: x <= last ==> Shr(x, bf.Exponent(h)) <= Layer(S, bf, top, h)[n]
    ensures forall x: nat :: x > last ==> Layer(S, bf, top, h)[n] < Shr(x, bf.Exponent(h))
    ensures n + 1 < |Layer(S, bf, top, h)| ==> Layer(S, bf, top, h)[n] < Layer(S, bf, top, h)[n + 1]
  {
    var q, e := Layer(S, bf, top, h)[n], bf.Exponent(h);
    LayerIsLive(S, bf, top, h);
    ShrRange(last, e, q);
    ShrRange(last + 1, e, q + 1);
    forall x: nat ensures x <= last ==> Shr(x, e) <= q ensures x > last ==> q < Shr(x, e) {
      if x <= last { ShrMonotonic(x, last, e); } else { ShrMonotonic(last + 1, x, e); }
    }
  }

  lemma SetNextBit(S: set<nat>, e: nat, f: nat, n: nat, i: nat, cp: nat)
    requires n <= i && cp in S && Shr(cp, e) == f + i
    requires NoneHas(S, e, f + n, f + i)
    ensures BitOr(MaskUpTo(S, e, f, n), Shl(1, i)) == MaskUpTo(S, e, f, i + 1)
    ensures ChildrenUpTo(S, e, f, i + 1) == ChildrenUpTo(S, e, f, n) + [f + i]
  {
    NoChildrenBetween(S, e, f, n, i);
    MaskBits(S, e, f, i);
    OrDisjoint(MaskUpTo(S, e, f, i), 1, i);
    ShlOfOne(i);
    assert Has(S, e, f + (i + 1) - 1);
  }

  lemma MaskFits(S: set<nat>, bf: BranchFactor, e: nat, f: nat, n: nat)
    requires n <= bf.NodeSize()
    ensures MaskUpTo(S, e, f, n) < U32_LIMIT
  {
    MaskBits(S, e, f, n);
    Pow2Monotonic(n, 32);
    SmallPowers();
  }

  lemma QueueOne(e: nat, next: seq<nat>, partial: seq<nat>, c: nat)
    ensures BasesOf(e, next + (partial + [c])) == BasesOf(e, next + partial) + [Shl(c, e)]
  {
  }

  /** Before the first value of a node none of its children holds a value. */
  lemma FirstInNode(S: set<nat>, bf: BranchFactor, top: nat, h: nat, n: nat, prior: int, cp: nat)
    requires Covers(S, bf, top) && 0 < h <= top && NextValue(S, prior, cp) && n < |Layer(S, bf, top, h)|
    requires Between(Layer(S, bf, top, h), bf.Exponent(h), n, prior) && Layer(S, bf, top, h)[n] == Shr(cp, bf.Exponent(h))
    ensures NoneHas(S, bf.Exponent(h - 1), bf.FirstChild(Shr(cp, bf.Exponent(h))), Shr(cp, bf.Exponent(h - 1)))
    ensures bf.FirstChild(Shr(cp, bf.Exponent(h))) <= Shr(cp, bf.Exponent(h - 1))
  {
    var q, f := Shr(cp, bf.Exponent(h)), bf.FirstChild(Shr(cp, bf.Exponent(h)));
    BitIndex(bf, h, q, cp);
    forall y | y in S && y <= prior ensures Shr(y, bf.Exponent(h - 1)) < f {
      ShrMonotonic(y, prior, bf.Exponent(h));
      BitIndex(bf, h, Shr(y, bf.Exponent(h)), y);
      FirstChildMonotonic(bf, Shr(y, bf.Exponent(h)), q);
    }
    NothingBetween(S, bf.Exponent(h - 1), prior, cp, f);
  }

  lemma FirstChildMonotonic(bf: BranchFactor, p: nat, q: nat)
    requires p < q
    ensures bf.FirstChild(p) + bf.NodeSize() <= bf.FirstChild(q)
  {
  }

  lemma BetweenNodes(S: set<nat>, bf: BranchFactor, top: nat, h: nat, n: nat, cp: nat)
    requires Covers(S, bf, top) && 0 < h <= top && 0 < n <= |Layer(S, bf, top, h)|
    requires Layer(S, bf, top, h)[n - 1] == Shr(cp, bf.Exponent(h))
    ensures Between(Layer(S, bf, top, h), bf.Exponent(h), n, cp)
  {
    LayerIsLive(S, bf, top, h);
  }

  /** Between two values of one node no child holds a value. */
  lemma NextInNode(S: set<nat>, bf: BranchFactor, h: nat, q: nat, prior: nat, cp: nat)
    requires h > 0 && NextValue(S, prior, cp) && Shr(prior, bf.Exponent(h)) == q == Shr(cp, bf.Exponent(h))
    ensures var f, c, d := bf.FirstChild(q), Shr(prior, bf.Exponent(h - 1)), Shr(cp, bf.Exponent(h - 1));
            f <= c <= d && (c == d || NoneHas(S, bf.Exponent(h - 1), c + 1, d))
  {
    var e := bf.Exponent(h - 1);
    BitIndex(bf, h, q, prior);
    ShrMonotonic(prior, cp, e);
    forall y | y in S && y <= prior ensures Shr(y, e) < Shr(prior, e) + 1 {
      ShrMonotonic(y, prior, e);
    }
    NothingBetween(S, e, prior, cp, Shr(prior, e) + 1);
  }

  /** After the last value of a node its mask is the node's word. */
  lemma NodeComplete(S: set<nat>, bf: BranchFactor, h: nat, q: nat, prior: nat)
    requires h > 0 && Shr(prior, bf.Exponent(h)) == q && !ZeroCoded(S, bf, h, q)
    requires forall x :: x in S && x > prior ==> Shr(x, bf.Exponent(h)) > q
    ensures var f, n := bf.FirstChild(q), Shr(prior, bf.Exponent(h - 1)) + 1 - bf.FirstChild(q);
            0 < n <= bf.NodeSize()
            && MaskUpTo(S, bf.Exponent(h - 1), f, n) == Word(S, bf, h, q)
            && ChildrenUpTo(S, bf.Exponent(h - 1), f, n) == Children(S, bf, h, q)
  {
    var e, f := bf.Exponent(h - 1), bf.FirstChild(q);
    BitIndex(bf, h, q, prior);
    var n := Shr(prior, e) + 1 - f;
    forall c | f + n <= c < f + bf.NodeSize() ensures !Has(S, e, c) {
      if Has(S, e, c) {
        var y :| y in S && Shr(y, e) == c;
        ChildBlock(bf, h, y);
        ChildIndex(bf, q, c);
        ShrMonotonic(y, prior, e);
      }
    }
    NoChildrenBetween(S, e, f, n, bf.NodeSize());
  }

  lemma SkipStart(S: set<nat>, bf: BranchFactor, height: nat, levels: map<nat, nat>, layer: nat, prior: int, cp: nat)
    requires FilledLevels(S, bf, height, levels) && layer < height && NextValue(S, prior, cp) && Covers(S, bf, height)
    requires Shr(cp, bf.Exponent(2)) in levels && levels[Shr(cp, bf.Exponent(2))] < layer
    requires prior >= 0 ==> prior in S && Live(S, bf, height, height - layer, Shr(prior, bf.Exponent(height - layer)))
    ensures StartsFilledNode(bf, height, levels, Shr(cp, bf.Exponent(2)))
    ensures Shl(Shr(cp, bf.Exponent(2)), bf.Exponent(2)) <= cp
    ensures NotWritten(S, bf, height, height - layer, cp, Shl(Shr(cp, bf.Exponent(2)), bf.Exponent(2)))
    ensures Shr(cp, bf.Exponent(2)) < U32_LIMIT
  {
    StartsWithFirst(S, bf, height, levels, layer, prior, cp);
    ShlGrows(Shr(cp, bf.Exponent(2)), bf.Exponent(2));
  }

  /** One filled node further. */
  lemma SkipStep(S: set<nat>, bf: BranchFactor, height: nat, levels: map<nat, nat>, layer: nat, cp: nat, twig: nat)
    requires FilledLevels(S, bf, height, levels) && layer < height && Covers(S, bf, height) && cp in S
    requires twig in levels && levels[twig] < layer && StartsFilledNode(bf, height, levels, twig)
    requires NotWritten(S, bf, height, height - layer, cp, Shl(twig, bf.Exponent(2)))
    requires cp < Shl(twig, bf.Exponent(2)) || twig == Shr(cp, bf.Exponent(2))
    ensures levels[twig] + 2 <= height
    ensures var next := twig + Shl(1, (height - levels[twig] - 2) * bf.Log2());
            && twig < next < U32_LIMIT
            && (next in levels ==> StartsFilledNode(bf, height, levels, next))
            && cp < Shl(next, bf.Exponent(2)) < U32_LIMIT
            && NotWritten(S, bf, height, height - layer, cp, Shl(next, bf.Exponent(2)))
  {
    hide Shr, Shl, Pow2, Live, Covers, NotWritten, BranchFactor.Exponent;
    var e, e2 := bf.Exponent(height - levels[twig] - 2), bf.Exponent(2);
    var next := twig + Shl(1, (height - levels[twig] - 2) * bf.Log2());
    assert next == twig + Pow2(e) by {
      bf.ExponentIsProduct(height - levels[twig] - 2);
      ShlOfOne(e);
    }
    assert forall x :: x in S ==> x < U32_LIMIT - 1 by {
      CoversFits(S, bf, height);
    }
    FilledNotWritten(S, bf, height, levels, layer, twig, next);
    NotWrittenJoin(S, bf, height, height - layer, cp, Shl(twig, e2), Shl(next, e2));
    if next in levels {
      NextStarts(S, bf, height, levels, twig, next);
    }
    ShlGrows(next, e2);
    ShrRange(cp, e2, twig);
    ShlMonotonic(twig + 1, next, e2);
  }

  lemma CoversFits(S: set<nat>, bf: BranchFactor, h: nat)
    requires Covers(S, bf, h)
    ensures S != {} && forall x :: x in S ==> x < U32_LIMIT - 1
  {
  }

  lemma NotWrittenJoin(S: set<nat>, bf: BranchFactor, top: nat, h: nat, lo: nat, mid: nat, hi: nat)
    requires NotWritten(S, bf, top, h, lo, mid) && NotWritten(S, bf, top, h, mid, hi)
    ensures NotWritten(S, bf, top, h, lo, hi)
  {
    hide Live;
  }

  lemma SkipEnd(S: set<nat>, bf: BranchFactor, top: nat, h: nat, n: nat, prior: int, cp: nat, last: nat)
    requires Covers(S, bf, top) && 0 < h <= top && NextValue(S, prior, cp) && cp <= last
    requires Between(Layer(S, bf, top, h), bf.Exponent(h), n, prior) && NotWritten(S, bf, top, h, cp, last + 1)
    requires n > 0 ==> Layer(S, bf, top, h)[n - 1] < Shr(cp, bf.Exponent(h))
    ensures Between(Layer(S, bf, top, h), bf.Exponent(h), n, cp)
    ensures n < |Layer(S, bf, top, h)| ==>
              forall x :: x in S && x <= last ==> Shr(x, bf.Exponent(h)) < Layer(S, bf, top, h)[n]
    ensures n > 0 ==> forall x: nat :: x > last ==> Layer(S, bf, top, h)[n - 1] < Shr(x, bf.Exponent(h))
  {
    if n < |Layer(S, bf, top, h)| {
      forall x | x in S && x <= last ensures Shr(x, bf.Exponent(h)) < Layer(S, bf, top, h)[n] {
        SkippedBefore(S, bf, top, h, n, prior, cp, last + 1, x);
      }
    }
    forall x: nat | x > last ensures Shr(cp, bf.Exponent(h)) <= Shr(x, bf.Exponent(h)) {
      ShrMonotonic(cp, x, bf.Exponent(h));
    }
  }

  lemma SameNodeRange(e: nat, prior: nat, cp: nat)
    requires prior < cp
    ensures Shr(cp, e) == Shr(prior, e) <==> cp <= Shl(Shr(prior, e), e) + Pow2(e) - 1
    ensures Shr(prior, e) <= Shr(cp, e)
  {
    ShrRange(prior, e, Shr(prior, e));
    ShrRange(cp, e, Shr(prior, e));
    ShrMonotonic(prior, cp, e);
  }

  /** One layer: the nodes of the layer are written in order, and the bases of the next layer come out. */
  method EncodeLayer(codepoints: seq<U32>, layer: nat, treeHeight: nat, bf: BranchFactor, filledLevels: map<nat, nat>,
                     nodeBases: seq<nat>, bitBuffer: BitOutputBuffer)
    returns (nextNodeBases: seq<nat>)
    requires Ascending(codepoints) && layer < treeHeight && Covers(ToSet(codepoints), bf, treeHeight)
    requires FilledLevels(ToSet(codepoints), bf, treeHeight, filledLevels)
    requires QueuedFor(ToSet(codepoints), bf, treeHeight, treeHeight - layer, nodeBases)
    requires bitBuffer.Valid() && bitBuffer.branchFactor == bf
    modifies bitBuffer
    ensures bitBuffer.Valid()
    ensures LayerWritten(ToSet(codepoints), bf, treeHeight, treeHeight - layer,
                         old(bitBuffer.words), bitBuffer.words, nextNodeBases)
  {
    hide *;
    ghost var S := ToSet(codepoints);
    CoversFits(S, bf, treeHeight);
    var context := new EncodeContext(layer, bf, treeHeight, filledLevels, nodeBases, bitBuffer, S);
    context.EncodeValues(codepoints);
    context.FinishedLayer();
    nextNodeBases := context.nextNodeBases;
  }

  lemma LastIsMax(codepoints: seq<nat>)
    requires Ascending(codepoints) && ToSet(codepoints) != {}
    ensures |codepoints| > 0 && forall y :: y in ToSet(codepoints) ==> y <= codepoints[|codepoints| - 1]
  {
  }

  // ---------- all layers ----------

  lemma {:induction false} NothingLeft(S: set<nat>, bf: BranchFactor, h: nat)
    ensures TreeWords(S, bf, h, []) == []
  {
    if h > 0 {
      NothingLeft(S, bf, h - 1);
    }
  }

  /** What a layer still has to write: itself and everything below it. */
  ghost function WordsLeft(S: set<nat>, bf: BranchFactor, top: nat, h: nat): seq<nat>
    requires h <= top
  {
    TreeWords(S, bf, h, Layer(S, bf, top, h))
  }

  lemma WordsLeftStep(S: set<nat>, bf: BranchFactor, top: nat, h: nat, before: seq<nat>, after: seq<nat>, next: seq<nat>)
    requires 0 < h <= top && LayerWritten(S, bf, top, h, before, after, next)
    ensures after + WordsLeft(S, bf, top, h - 1) == before + WordsLeft(S, bf, top, h)
    ensures h > 1 ==> QueuedFor(S, bf, top, h - 1, next)
    ensures next == [] ==> WordsLeft(S, bf, top, h - 1) == []
  {
    hide BasesOf;
    NextLayerQueued(S, bf, top, h, next);
    NothingLeft(S, bf, h - 1);
    assert WordsLeft(S, bf, top, h) == LevelWords(S, bf, h, Layer(S, bf, top, h)) + WordsLeft(S, bf, top, h - 1);
    Concat(before, LevelWords(S, bf, h, Layer(S, bf, top, h)), WordsLeft(S, bf, top, h - 1));
  }

  lemma Concat(a: seq<nat>, b: seq<nat>, c: seq<nat>)
    ensures (a + b) + c == a + (b + c)
  {
  }

  lemma NextLayerQueued(S: set<nat>, bf: BranchFactor, top: nat, h: nat, next: seq<nat>)
    requires 0 < h <= top && next == if h == 1 then [] else BasesOf(bf.Exponent(h - 1), Layer(S, bf, top, h - 1))
    ensures h > 1 ==> QueuedFor(S, bf, top, h - 1, next)
    ensures next == [] ==> h == 1 || Layer(S, bf, top, h - 1) == []
  {
  }

  lemma DepthCovers(codepoints: seq<U32>, bf: BranchFactor, depth: nat)
    requires Ascending(codepoints) && codepoints != [] && forall cp :: cp in codepoints ==> cp < U32_LIMIT - 1
    requires IsTreeDepth(codepoints[|codepoints| - 1], bf, depth)
    ensures Covers(ToSet(codepoints), bf, depth)
  {
    var e, last := bf.Exponent(depth), codepoints[|codepoints| - 1];
    assert last in ToSet(codepoints);
    forall x | x in ToSet(codepoints) ensures Shr(x, e) == 0 {
      ShrMonotonic(x, last, e);
    }
  }

  /** EncodeSet writes exactly the bytes of the set, for the least tree height that covers it. */
  method EncodeSet(codepoints: seq<U32>, bf: BranchFactor, filledTwigs: seq<nat>) returns (bytes: seq<Byte>, ghost height: nat)
    requires Ascending(codepoints) && forall cp :: cp in codepoints ==> cp < U32_LIMIT - 1
    requires codepoints != [] ==> AreFilledTwigs(ToSet(codepoints), bf, filledTwigs)
    requires codepoints != [] && bf == BF2 ==> codepoints[|codepoints| - 1] < 0x8000_0000
    ensures codepoints == [] ==> bytes == [0]
    ensures codepoints != [] ==>
              && IsTreeDepth(codepoints[|codepoints| - 1], bf, height) && height <= bf.MaxDepth()
              && Covers(ToSet(codepoints), bf, height)
              && bytes == Encoded(ToSet(codepoints), bf, height)
  {
    height := 0;
    if codepoints == [] {
      return [0], 0;
    }
    ghost var S := ToSet(codepoints);
    var last := codepoints[|codepoints| - 1];
    var treeHeight := TreeDepthFor(last, bf);
    height := treeHeight;
    DepthLimit(last, bf, treeHeight);
    DepthCovers(codepoints, bf, treeHeight);
    var filledLevels := FindFilledNodes(bf, treeHeight, filledTwigs, S);
    bytes := EncodeLayers(codepoints, bf, treeHeight, filledLevels);
  }

  method EncodeLayers(codepoints: seq<U32>, bf: BranchFactor, treeHeight: nat, filledLevels: map<nat, nat>)
    returns (bytes: seq<Byte>)
    requires Ascending(codepoints) && treeHeight > 0 && Covers(ToSet(codepoints), bf, treeHeight)
    requires FilledLevels(ToSet(codepoints), bf, treeHeight, filledLevels)
    ensures bytes == Encoded(ToSet(codepoints), bf, treeHeight)
  {
    hide Ascending, Covers, FilledLevels, ToSet, Encoded, QueuedFor, WordsLeft, LayerWritten;
    ghost var S := ToSet(codepoints);
    var bitBuffer := new BitOutputBuffer(bf, treeHeight);
    RootBase(S, bf, treeHeight);
    WriteLayers(codepoints, bf, treeHeight, filledLevels, bitBuffer);
    AllWritten(bitBuffer, S, treeHeight);
    bytes := bitBuffer.buffer;
  }

  method WriteLayers(codepoints: seq<U32>, bf: BranchFactor, treeHeight: nat, filledLevels: map<nat, nat>, bitBuffer: BitOutputBuffer)
    requires Ascending(codepoints) && treeHeight > 0 && Covers(ToSet(codepoints), bf, treeHeight)
    requires FilledLevels(ToSet(codepoints), bf, treeHeight, filledLevels)
    requires bitBuffer.Valid() && bitBuffer.words == [] && bitBuffer.branchFactor == bf
    requires QueuedFor(ToSet(codepoints), bf, treeHeight, treeHeight, [0])
    modifies bitBuffer
    ensures bitBuffer.Valid() && bitBuffer.words == WordsLeft(ToSet(codepoints), bf, treeHeight, treeHeight)
  {
    ghost var S := ToSet(codepoints);
    hide *;
    var nodeBases := [0];
    for layer := 0 to treeHeight
      invariant bitBuffer.Valid()
      invariant layer < treeHeight ==> QueuedFor(S, bf, treeHeight, treeHeight - layer, nodeBases)
      invariant bitBuffer.words + WordsLeft(S, bf, treeHeight, treeHeight - layer) == WordsLeft(S, bf, treeHeight, treeHeight)
    {
      ghost var h, written := treeHeight - layer, bitBuffer.words;
      var nextNodeBases := EncodeLayer(codepoints, layer, treeHeight, bf, filledLevels, nodeBases, bitBuffer);
      WordsLeftStep(S, bf, treeHeight, h, written, bitBuffer.words, nextNodeBases);
      if nextNodeBases == [] {
        return;  // filled nodes mean nothing left to encode
      }
      nodeBases := nextNodeBases;
    }
    NothingBelowLeaves(S, bf, treeHeight);
  }

  lemma RootBase(S: set<nat>, bf: BranchFactor, h: nat)
    ensures QueuedFor(S, bf, h, h, [0])
    ensures [] + WordsLeft(S, bf, h, h) == WordsLeft(S, bf, h, h)
  {
    ShlOfOne(bf.Exponent(h));
  }

  lemma NothingBelowLeaves(S: set<nat>, bf: BranchFactor, top: nat)
    ensures WordsLeft(S, bf, top, 0) == []
  {
  }

  lemma AllWritten(bitBuffer: BitOutputBuffer, S: set<nat>, top: nat)
    requires bitBuffer.Valid() && bitBuffer.depth == top
    requires bitBuffer.words == WordsLeft(S, bitBuffer.branchFactor, top, top)
    ensures bitBuffer.buffer == Encoded(S, bitBuffer.branchFactor, top)
  {
  }

  // ---------- the entry points ----------

  function Codepoints(s: set<nat>): (v: seq<U32>)
    requires forall x :: x in s ==> x < U32_LIMIT - 1
    ensures Ascending(v) && ToSet(v) == s && forall x :: x in v ==> x < U32_LIMIT - 1
    ensures v == [] <==> s == {}
  {
    var v := ToVector(s);
    assert forall i :: 0 <= i < |v| ==> v[i] < U32_LIMIT by {
      forall i | 0 <= i < |v| ensures v[i] < U32_LIMIT { assert v[i] in v; }
    }
    v
  }

  /** The bytes are those of a tree with this branch factor, as high as its largest value needs, and say so. */
  ghost predicate WrittenWith(s: set<nat>, bf: BranchFactor, bytes: seq<Byte>) {
    exists height, last :: WrittenAs(s, bf, height, last, bytes)
  }

  ghost predicate WrittenAs(s: set<nat>, bf: BranchFactor, height: nat, last: nat, bytes: seq<Byte>) {
    && last in s && (forall x :: x in s ==> x <= last) && IsTreeDepth(last, bf, height)
    && bytes == Encoded(s, bf, height) && bytes != []
    && DecodeBranchFactor(bytes[0]) == bf && DecodeDepth(bytes[0]) == height
  }

  lemma LargestOf(s: set<nat>, codepoints: seq<nat>)
    requires codepoints != [] && Ascending(codepoints) && ToSet(codepoints) == s
    ensures codepoints[|codepoints| - 1] in s && forall x :: x in s ==> x <= codepoints[|codepoints| - 1]
  {
    assert codepoints[|codepoints| - 1] in ToSet(codepoints);
    LastIsMax(codepoints);
  }

  lemma WrittenByEncodeSet(s: set<nat>, codepoints: seq<nat>, bf: BranchFactor, height: nat, bytes: seq<Byte>)
    requires codepoints != [] && Ascending(codepoints) && ToSet(codepoints) == s
    requires IsTreeDepth(codepoints[|codepoints| - 1], bf, height) && height <= bf.MaxDepth() && bytes == Encoded(s, bf, height)
    ensures WrittenWith(s, bf, bytes)
  {
    hide Ascending, ToSet, Encoded, IsTreeDepth;
    var last := codepoints[|codepoints| - 1];
    LargestOf(s, codepoints);
    EncodedStarts(s, bf, height);
    assert WrittenAs(s, bf, height, last, bytes);
  }

  lemma EncodedStarts(s: set<nat>, bf: BranchFactor, height: nat)
    requires height <= bf.MaxDepth()
    ensures var bytes := Encoded(s, bf, height);
            bytes != [] && DecodeBranchFactor(bytes[0]) == bf && DecodeDepth(bytes[0]) == height
  {
    TreeWordsFit(s, bf, height, [0]);
    HeaderRoundTrip(bf, height);
    assert Encoded(s, bf, height)[0] == EncodeFirstByte(bf, height);
  }

  /** The requested branch factor, but for binary trees that would be too high. */
  ghost predicate IsRequested(s: set<nat>, requested: BranchFactor, bf: BranchFactor) {
    bf == if requested == BF2 && exists x :: x in s && x >= 0x8000_0000 then BF4 else requested
  }

  /** The branch factor of fewest bytes for the largest value of the set. */
  ghost predicate IsBest(s: set<nat>, sizes: BranchFactor -> nat, bf: BranchFactor) {
    exists last: U32 :: last in s && (forall x :: x in s ==> x <= last) && IsFewest(last, sizes, bf)
  }

  lemma BestForLargest(s: set<nat>, codepoints: seq<U32>, sizes: BranchFactor -> nat, bf: BranchFactor)
    requires codepoints != [] && Ascending(codepoints) && ToSet(codepoints) == s
    requires IsFewest(codepoints[|codepoints| - 1], sizes, bf)
    ensures IsBest(s, sizes, bf)
  {
    hide IsFewest;
    LargestOf(s, codepoints);
    var last: U32 := codepoints[|codepoints| - 1];
    assert last in s && IsFewest(last, sizes, bf);
  }

  /** Encoding a set with a requested branch factor: the bytes are written with that factor, and decoding gives back exactly
      the set and whatever bytes follow. */
  method Encode(s: set<nat>, branchFactor: BranchFactor) returns (bytes: seq<Byte>)
    requires forall x :: x in s ==> x < U32_LIMIT - 1
    ensures forall rest: seq<Byte> :: DecodeBytes(bytes + rest) == Ok((s, rest))
    ensures s == {} ==> bytes == [0]
    ensures s != {} ==> exists bf :: IsRequested(s, branchFactor, bf) && WrittenWith(s, bf, bytes)
  {
    var bf := branchFactor;
    var codepoints := Codepoints(s);
    var max: U32 := if codepoints == [] then INVALID_CP else codepoints[|codepoints| - 1];
    var treeDepth := TreeDepthFor(max, bf);
    DepthLimit(max, bf, treeDepth);
    if treeDepth > bf.MaxDepth() && bf == BF2 {
      bf := BF4;
    }
    if s == {} {
      forall rest: seq<Byte> ensures DecodeBytes([0] + rest) == Ok((s, rest)) {
        EmptyRoundTrip(rest);
      }
      return [0];
    }
    var filledTwigs := FindFilledTwigs(codepoints, bf);
    ghost var height;
    bytes, height := EncodeSet(codepoints, bf, filledTwigs);
    WrittenByEncodeSet(s, codepoints, bf, height, bytes);
    LargestOf(s, codepoints);
    assert IsRequested(s, branchFactor, bf);
    forall rest: seq<Byte> ensures DecodeBytes(bytes + rest) == Ok((s, rest)) {
      BytesRoundTrip(s, bf, height, rest);
    }
  }

  /** The automatic choice of the branch factor, for any estimates of the sizes: the round trip holds for every
      non-empty set. The empty set becomes no bytes at all, so whatever follows it is read instead. */
  method EncodeAutomatic(s: set<nat>, sizes: BranchFactor -> nat) returns (bytes: seq<Byte>)
    requires forall x :: x in s ==> x < U32_LIMIT - 1
    ensures s == {} ==> bytes == []
    ensures s != {} ==> forall rest: seq<Byte> :: DecodeBytes(bytes + rest) == Ok((s, rest))
    ensures s != {} ==> exists bf :: IsBest(s, sizes, bf) && WrittenWith(s, bf, bytes)
  {
    if s == {} {
      return [];
    }
    var codepoints := Codepoints(s);
    var bf, filledTwigs := ChooseBranchFactor(codepoints, sizes);
    ghost var height;
    bytes, height := EncodeSet(codepoints, bf, filledTwigs);
    WrittenByEncodeSet(s, codepoints, bf, height, bytes);
    BestForLargest(s, codepoints, sizes, bf);
    forall rest: seq<Byte> ensures DecodeBytes(bytes + rest) == Ok((s, rest)) {
      BytesRoundTrip(s, bf, height, rest);
    }
  }

  lemma EmptyRoundTrip(rest: seq<Byte>)
    ensures DecodeBytes([0] + rest) == Ok(({}, rest))
  {
    var data := [0] + rest;
    assert DecodeBranchFactor(data[0]) == BF2 && DecodeDepth(data[0]) == 0;
    assert DecodeTree(BF2, 0, [0], Unpack(BF2, data[1..])) == Some(Decoded({}, 0));
    assert data[1..] == rest;
  }
}
