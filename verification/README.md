# Encoding incremental font transfer: a verified model

An incremental font is delivered in patches. A patch map tells a client which patches to fetch, by listing entries that
match what the client asks for: code points, features and ranges of the design space. This project models the parts of
the encoder whose correctness the whole system rests on, and proves what they promise.

* **The sparse bit set codec** (`Bits`, `BranchFactors`, `BitBuffers`, `IntSets`, `SparseTree`, `SparseMeaning`,
  `SparseDecoder`, `FilledNodes`, `BranchFactorChoice`, `EncoderSteps`, `SparseEncoder`). A set of code points is written as a tree of
  nodes with 2, 4, 8 or 32 bits, layer by layer, where a zero node stands for a subtree that is completely filled.
  `SparseTree` says what the bytes are and proves that they can be read back. The encoder and the decoder are shown to
  write and read exactly those bytes, although each keeps node positions in its own way. `SparseMeaning` says what any
  stream of nodes stands for, whoever wrote it.
* **The condition algebra** (`SegmentGroups`, `ActivationConditions`). An activation condition is a conjunction of
  disjunctions of segments, in a canonical form: the minimal groups, in order.
* **The entry graph** (`SubsetDefinitions`, `EntryNodes`, `EntryGraphs`, `EntrySubsumption`, `EntryRewrites`,
  `EntryBuilding`, `EntryLinking`, `EntryCompilation`, `EntryEmission`, `EntrySort`, `EntryGrowth`, `EntryGraphSteps`,
  `EntryGraph`). Conditions are compiled into a shared graph with edge counts, the graph is rewritten while that lowers
  its cost, sorted, and emitted as a list of entries that refer backwards. `EntryGraph.ConditionsToEntries` states the
  whole: the entries match what the conditions say, they cost no more than the graph as first compiled, and no further
  rewriting would lower their cost.
* **Dependency closure** (`Reachability`, `TarjanState`, `StrongComponents`, `NodeConditions`, `ConditionPropagation`,
  `MergedConditions`, `DependencyClosure`, `TraversalState`, `GraphTraversal`, `SymbolicTraversal`, `ClosurePhase`,
  `DependencyEdges`, `FontPhases`, `FontClosure`). The edges of the dependency graph are made from a font and from segments, their
  requirements are collected, the strongly connected components are found without recursion, and conditions are
  propagated through them. `FontClosure.CloseFontPhase` states the whole for each phase of any font: for every set of
  active segments, the nodes whose conditions hold are exactly those that a concrete traversal of the graph visits, and
  exactly the least set that the rules of the font, which name no edges, do not leave.
* **The complex condition finder** (`FinderTasks`, `FinderAnswers`, `ComplexConditionFinder`). A queue of searches
  against a monotone closure finds, for each glyph, a set of segments one of which is active whenever the glyph is
  needed: the one that a search for this glyph alone gives.
* **Glyph partitions** (`UnionFind`, `GlyphPartition`): union-find with ranks, path compression and a cache.
* **The Brotli stream writer** (`BrotliBits`, `BrotliFormat`, `BrotliStream`), against a reader and an executor of
  meta-blocks written after sections 4, 5, 9.1, 9.2 and 10 of RFC 7932.

The modules follow one pattern. Values and their meaning are functions and predicates; what the source updates in place
is a class with the same fields, whose methods are proved against those functions. Long algorithms have their state as a
value, too, and one lemma for every kind of step, so that a method only has to show which step it takes.

Behaviour that the source leaves to others enters as a parameter: the cost of an entry, the closure of a set of
segments, the edges of the dependency graph, the sizes that choose a branch factor, and the encoding of distances.

## Where the source differs from what it promises

* `GlyphPartition::operator=` (`ift/encoder/glyph_partition.cc:28-36`) keeps the cache of the partition that is assigned
  to. `Assign` states exactly when that cache still fits, and `AssignedCacheIsWrong` reaches a partition whose cache is
  wrong through ordinary calls.
* A traversal counts the initial font as reached but does not follow its edges (`ift/dep_graph/dependency_graph.cc:778-869`),
  while conditions are propagated from it. `CloseFontPhase` shows that the two agree if the initial font already has
  everything that its own nodes are enough for, and only then if nothing else holds at the start while no segment is
  active; a traversal that starts from the initial font as well always agrees.
* The documentation says that contextual substitutions are not listed at the glyphs of their context
  (`docs/experimental/dependency_graph.md:28-31`). The code does list them there
  (`ift/dep_graph/dependency_graph.cc:977-992`, `1217-1247`), and the model follows the code.
* An edge with an empty context group is never satisfied in a traversal, but the requirements extracted from it leave
  that group out (`ift/dep_graph/dependency_graph.cc:333-376`, `1146-1215`). `RequirementsAgree` has the exact condition,
  and `EmptyContextDiffers` an edge where the two differ. No phase is touched by this, since such edges are neither
  collected nor followed: the full closure does not satisfy them either (`FollowedHasContext`).
* Merging segments by renaming gives the groups that propagating anew gives, but not always the same exclusive flag, which
  comparing conditions takes into account. `FlagsMayDiffer` has a condition where it differs.
* Inserting zero bytes with `insert_uncompressed`, and ending an empty stream, leave bytes that no reader accepts
  (`brotli/brotli_stream.cc:187-204`, `278-282`). `InsertUncompressed` and `EmptyStreamUnreadable` say so.
* A single byte cannot be taken from the dictionary (`brotli/brotli_stream.cc:113-116`): `InsertFromDictionary` succeeds
  exactly when the length is not 1.
* Trees of factor 8 or 32 have room for more than 32 bits, and positions are computed in 32 bits
  (`ift/common/sparse_bit_set.cc:76-126`). `BytesMean` shows that a stream is decoded to what it describes if and only if
  all that its nodes lead to fits into 32 bits; in `WrapsRound` values from 0 on are decoded instead.
* The depths are meant to be enough for 32 bits (`ift/common/branch_factor.h:37-38`), but binary trees stop at 31:
  `MaxDepthIsLeast`. Where factor 2 is asked for and a value has 32 bits, factor 4 is taken.
* The index of a top level condition is meant to take precedence (`ift/encoder/entry_graph.cc:201-204`), but when its node
  is a leaf that was made as a part of another segment, the leaf keeps the index it has. `AddMapping` states exactly when.
* No search is needed where an existing condition suffices, as the finder says
  (`ift/encoder/complex_condition_finder.cc:162-170`), but the glyphs stay among those that are then searched from the
  start. `Answer` gives what they end up with.
* Encoding the empty set without a branch factor gives no bytes at all (`ift/common/sparse_bit_set.cc:705-714`), which do
  not decode; with a branch factor it gives one byte, which does.

## Model

| member | source | states |
|---|---|---|
| SparseEncoder.Encode | ift/common/sparse_bit_set.cc:687-703 | For every set of values below 2^32 - 1 and every requested branch factor, decoding the bytes followed by any other bytes gives exactly the set and exactly the other bytes. The first byte names the requested factor, or 4 where 2 was asked for and the tree would be too high, and the bytes are those of the tree of that factor; the empty set is one zero byte. |
| SparseEncoder.EncodeAutomatic | ift/common/sparse_bit_set.cc:705-714 | The same with a factor chosen by any size estimate, for every set that is not empty: the first byte names a factor whose tree is not too high, with an estimate that no other such factor is below, the first one in the order 4, 2, 32, 8. The empty set gives no bytes. |
| SparseEncoder.EncodeSet | ift/common/sparse_bit_set.cc:659-685 | The bytes are exactly those that the tree of the set is defined to have, for the least height that covers the largest value. |
| SparseEncoder.EmptyRoundTrip | ift/common/sparse_bit_set.cc:56-136 | The one byte that stands for the empty set decodes to it and leaves what follows. |
| SparseEncoder.EncodeLayer | ift/common/sparse_bit_set.cc:629-651 | Started with the bases of exactly the live nodes of a layer, the machine writes the node of each of them once and in order, and queues exactly the bases of the live nodes of the next layer. |
| SparseEncoder.EncodeContext.UpdateState | ift/common/sparse_bit_set.cc:561-627 | Each step keeps the machine consistent and never reaches its error state; the end of the values leaves it with all nodes of the layer written. |
| SparseEncoder.EncodeContext.ParseCodepoint | ift/common/sparse_bit_set.cc:466-494 | For the next value, the symbol says whether it starts a node, stays in the node, or lies in a filled node that is new or was written by an earlier layer. |
| SparseEncoder.EncodeContext.OverrideIfFilled | ift/common/sparse_bit_set.cc:451-464 | A value is classified by whether a filled node covers it on this layer or on an earlier one, which the recorded levels of filled twigs decide. |
| SparseEncoder.EncodeContext.SkipExistingFilledNode | ift/common/sparse_bit_set.cc:502-519 | Skipping covers the run of filled nodes that the value starts, so that the next value that counts lies beyond them. |
| SparseEncoder.EncodeContext.StartFilledNode | ift/common/sparse_bit_set.cc:496-500 | A filled node is written as zero, takes its base off the queue and leaves the machine skipping exactly that node. |
| SparseEncoder.EncodeContext.EndNormalNode | ift/common/sparse_bit_set.cc:521-528 | When no further value lies in the node, the mask that was collected is the word of the node, and all nodes up to it have been written. |
| SparseEncoder.EncodeContext.UpdateNodeBit | ift/common/sparse_bit_set.cc:530-548 | Each value sets the bit of its sub-range, and the base of a sub-range is queued once, in order. |
| SparseTree.BytesRoundTrip | ift/common/sparse_bit_set.cc:56-136 | Decoding the defined bytes of any covered set, for any branch factor and height and whatever bytes follow, gives exactly that set and exactly those bytes. |
| SparseTree.TreeRoundTrip | ift/common/sparse_bit_set.cc:84-130 | The same level by level, from any ascending list of inhabited nodes: the words are read in order, none is left over and none is missing. |
| SparseTree.LayerIsLive | ift/common/sparse_bit_set.cc:629-651 | The layers that the bytes are defined by are, level by level, the ascending lists of exactly the nodes that hold a value and have no filled node above them; that the machine's queue is this list is EncodeLayer. |
| SparseTree.ZeroMeansFilled | ift/common/sparse_bit_set.cc:561-627 | Among nodes that hold a value, a zero word always means a filled node, and a filled node is always written as zero. |
| SparseTree.MaskBits | ift/common/sparse_bit_set.cc:530-548 | A word that is not zero-coded has exactly the bits of the sub-ranges that hold a value. |
| SparseDecoder.Decode | ift/common/sparse_bit_set.cc:56-136 | The decoder adds exactly the values that the bytes are defined to mean and returns exactly the bytes after them; on malformed bytes it fails and takes nothing out of the set; without any bytes it adds nothing and succeeds. |
| SparseDecoder.DecodeLevels | ift/common/sparse_bit_set.cc:84-135 | Working with scaled node bases and bulk insertion, the loop gives what the recursive definition of a tree gives and stops after the same node. |
| SparseMeaning.BytesMean | ift/common/sparse_bit_set.cc:56-136 | For all bytes, whoever wrote them: the values decoded are those that a walk from the root arrives at (along set bits, and anywhere below a zero node, also at the leaves) if and only if all nodes, and the ranges of zero nodes, lie within 32 bits; with at most 32 bits below the root they always do. |
| SparseMeaning.BytesEnd | ift/common/sparse_bit_set.cc:63-89 | Decoding fails exactly if the depth is over the limit or the nodes run out on some level, and what is returned is what follows the bytes of the nodes of all levels. |
| SparseMeaning.WrapsRound | ift/common/sparse_bit_set.cc:92-96 | In a tree of factor 32 and depth 7 whose fifth child is filled, 2^30 values from 0 on are decoded where those from 2^32 on are described. |
| SparseMeaning.PackedLengthIsLeast | ift/common/bit_input_buffer.cc:34-51 | The bytes that nodes take are the fewest that hold their bits. |
| FilledNodes.FindFilledTwigs | ift/common/sparse_bit_set.cc:313-338 | The result is the ascending list of exactly the aligned twigs that are contained in the set. |
| FilledNodes.FindFilledNodes | ift/common/sparse_bit_set.cc:350-406 | Every filled twig is mapped to the topmost layer on which the node around it is contained in the set, the early end of merging included. |
| BranchFactorChoice.ChooseBranchFactor | ift/common/sparse_bit_set.cc:202-311 | The chosen factor is the best by the estimates among those whose tree is not too high for the largest value, and the twigs that come with it are exactly its filled twigs. |
| BranchFactorChoice.CollectTwigs | ift/common/sparse_bit_set.cc:224-249 | One scan of the values finds, for every branch factor, the same filled twigs as a scan for that factor alone. |
| BranchFactorChoice.FewestBytes | ift/common/sparse_bit_set.cc:294-311 | No factor whose tree is not too high takes fewer bytes, and of those that take as many it comes first in the order 4, 2, 32, 8; only trees of factor 2 can be too high, and only from 2^31 on. |
| BranchFactorChoice.TreeDepthFor | ift/common/sparse_bit_set.cc:25-33 | The depth is the least with which the tree reaches the value. |
| BitBuffers.BitOutputBuffer.Append | ift/common/bit_output_buffer.cc:27-67 | Appending adds the low bits of the value as one more node, at every position within a byte. |
| BitBuffers.BitInputBuffer.Read | ift/common/bit_input_buffer.cc:53-99 | A read gives the node at the position and advances by one; it fails, and reads nothing, exactly when no whole node is left. |
| BitBuffers.BitInputBuffer.Remaining | ift/common/bit_input_buffer.cc:34-51 | The remaining bytes are those after the last byte that a node was read from. |
| BitBuffers.UnpackPack | ift/common/bit_output_buffer.cc:27-67 | Nodes that were packed are unpacked again, whatever bytes follow, and the bytes that follow begin where packing says. |
| BitBuffers.NodeBits | ift/common/bit_input_buffer.cc:53-99 | Bit j of node i is bit size * i + j of the bytes, counted from the lowest bit of the first byte, for every node size. |
| BitBuffers.FirstByteMeans | ift/common/bit_input_buffer.cc:101-128 | For every first byte: its two lowest bits 0, 1, 2 and 3 stand for nodes of 2, 4, 8 and 32 bits, and the five bits above are the depth. |
| BranchFactors.BranchFactor.CodesFollowSizes | ift/common/bit_output_buffer.cc:73-91 | The codes of the branch factors are in the order of their node sizes; with four codes this fixes each. |
| BranchFactors.BranchFactor.MaxDepthIsLeast | ift/common/branch_factor.h:37-38 | The largest depth is the least that reaches all 32-bit values, except that binary trees stop at 31 bits. |
| BitBuffers.HeaderRoundTrip | ift/common/bit_output_buffer.cc:73-91 | Branch factor and depth are read back from the first byte, whose highest bit is zero. |
| SegmentGroups.Simplify | ift/encoder/activation_condition.cc:110-154 | Sorting, marking and compacting leaves exactly the minimal groups, each once and in order. |
| SegmentGroups.CanonicalUnique | ift/encoder/activation_condition.cc:110-154 | Two canonical lists of groups denote the same function of the active segments if and only if they are equal. |
| SegmentGroups.OnlyMinimalMatter | ift/encoder/activation_condition.cc:110-154 | Leaving out groups that others imply changes the condition for no set of active segments. |
| SegmentGroups.LessThan | ift/common/int_set.h:131-153 | Walking two sets at once decides the order that canonical lists are sorted by. |
| SegmentGroups.SetLessIsWeakOrder | ift/common/int_set.h:131-153 | The order of sets is an order that sorting may use. |
| ActivationConditions.CompositeCondition | ift/encoder/activation_condition.cc:87-100 | Any list of groups gives a canonical condition that holds exactly when all of its groups are met, for the given patch and with the fallback flag asked for. |
| ActivationConditions.True | ift/encoder/activation_condition.cc:46-52 | The condition is canonical, holds for every set of active segments, and is for the given patch with no flag set. |
| ActivationConditions.ExclusiveSegment | ift/encoder/activation_condition.cc:54-61 | The condition is canonical, holds exactly when the segment is active, is for the given patch, and is exclusive. |
| ActivationConditions.AndSegments | ift/encoder/activation_condition.cc:63-74 | The condition is canonical, holds exactly when all of the segments are active, and is for the given patch with no flag set. |
| ActivationConditions.OrSegments | ift/encoder/activation_condition.cc:76-85 | The condition is canonical, holds exactly when one of the segments is active, and is for the given patch, a fallback if asked for. |
| ActivationConditions.And | ift/encoder/activation_condition.cc:156-168 | For every set of active segments the result holds exactly when both conditions do; it is canonical, and it is exclusive only if the operands allow it. |
| ActivationConditions.Or | ift/encoder/activation_condition.cc:170-240 | For every set of active segments the result holds exactly when one of the conditions does, with shared groups factored out and the early return included; it is canonical. |
| ActivationConditions.ReplaceSegments | ift/encoder/activation_condition.cc:251-297 | The result is the simplified renaming of the segments to the base, also by the shortcut for conjunctions, and holds for exactly the active sets whose renaming the condition holds for. |
| ActivationConditions.RemoveIntersectingSubgroups | ift/encoder/activation_condition.cc:299-316 | Exactly the groups that avoid the segments are left, and the result holds when the condition holds with those segments active as well. |
| ActivationConditions.NonCompositeSuperset | ift/encoder/activation_condition.cc:318-383 | The result is a conjunction, a disjunction or always true, is implied by the condition, and is made of the single segments or else of the preferred group; conditions that are not composite stay as they are, and the result is exclusive exactly if the condition was or one segment is newly left. |
| ActivationConditions.ShapesMean | ift/encoder/activation_condition.h:106-180 | The shapes are told by what a condition means: always true, some of a set of segments, one segment, all of at least two segments. |
| EntryGraph.ConditionsToEntries | ift/encoder/activation_condition.cc:483-507 | On success each condition has one entry of its own with its patches and encoding, which matches an input exactly when the condition holds for the segments the input intersects; all other entries are ignored, children come earlier, and none has more than 127. The entries are written one for one from a graph in which no subsumption lowers the cost, together they cost no more than the graph as first compiled, and ignored entries have the most frequent encoding. Under a bound on the sizes and costs it succeeds if and only if no two conditions are equivalent; no conditions give no entries. |
| EntryGraph.MostFrequentEncoding | ift/encoder/activation_condition.cc:483-507 | The default is the encoding of most conditions, and of those that are as frequent the first in order. |
| EntryGraph.EntryGraph.AddConditions | ift/encoder/entry_graph.cc:38-63 | Compiling gives a well-formed graph in which each condition has a root of its own that evaluates to the condition on every input and has its index, but for leaves that an earlier condition made; it fails only if two conditions are equivalent or the ids run out, and adds no more nodes than the sizes allow. |
| EntryGraph.EntryGraph.AddMapping | ift/encoder/entry_graph.cc:193-284 | The node returned stands for the normal form of the condition, new or shared; older nodes keep their meaning, counts stay exact up to the one edge that is promised to the caller, and only so many nodes are added. New nodes have the index of the condition that asked for them, older ones keep theirs, and the node of a top level condition takes its index unless it is a leaf that was there under another condition. |
| EntryGraph.EntryGraph.AddChildrenToNode | ift/encoder/entry_graph.cc:286-305 | However many children there are, the node comes to mean their conjunction or disjunction through a chain of nodes with at most 127 children each, and no shorter chain has room for them. |
| EntryGraph.EntryGraph.AddSetsOnly | ift/encoder/entry_graph.cc:307-355 | One set has one leaf: a second request for it gives the same node, and nothing else changes its meaning. |
| EntryGraph.EntryGraph.CreateNode | ift/encoder/entry_graph.cc:357-372 | A new node is appended with the next id; this fails exactly when the ids have run out, and then changes nothing. |
| EntryGraph.EntryGraph.DecrementIncomingEdges | ift/encoder/entry_graph.cc:717-731 | Dropping an edge frees exactly the nodes that nothing leads to any more, with all that only they led to, and clears just those. |
| EntryGraph.EntryGraph.SavedCostIfEdgeToRemoved | ift/encoder/entry_graph.cc:506-519 | The predicted saving is exactly the difference in the cost of all live nodes, those freed indirectly included. |
| EntryGraph.EntryGraph.GetDisjunctiveSummary | ift/encoder/entry_graph.cc:461-504 | The recursion over the shared graph computes the union of the leaves of a disjunction, or nothing where one definition cannot say it. |
| EntryGraph.EntryGraph.CalculateDisjunctiveSubsumption | ift/encoder/entry_graph.cc:534-603 | The result takes in all children with their summary, and its delta is the cost of the new leaf less the old node and less everything that would be freed. |
| EntryGraph.EntryGraph.CalculateConjunctiveSubsumption | ift/encoder/entry_graph.cc:605-715 | Of all choices of children that can fill the empty sets of the node, none has a lower delta than the result. |
| EntryGraph.EntryGraph.ActuateSubsumption | ift/encoder/entry_graph.cc:733-785 | Putting a result into effect keeps the graph well-formed, changes what no live node evaluates to on any input, changes the cost of the live nodes by exactly the predicted delta, and adds at most three nodes; it fails only when the ids have run out. |
| EntryGraph.EntryGraph.Optimize | ift/encoder/entry_graph.cc:400-418 | Optimising ends; it changes what no live node evaluates to, never raises the cost, and ends where no subsumption into any node would lower the cost; the nodes added are bounded by the cost at the start. |
| EntryGraph.EntryGraph.TopologicalSort | ift/encoder/entry_graph.cc:130-191 | On a graph with exact counts, also after optimising, neither error is met: all ids come out once, every parent before its children, and by priority among those that are free. |
| EntrySort.Kahn | ift/encoder/entry_graph.cc:142-191 | The same for any acyclic graph with exact edge counts, for the loop alone. |
| EntryGraph.EntryGraph.ToPatchMapEntries | ift/encoder/entry_graph.cc:65-128 | From a compiled graph a list is emitted without error: one entry for each live node, with the sets, mode and children of that node, which represents the conditions as stated for ConditionsToEntries; ignored entries take the next patch index and the default encoding. |
| EntryEmission.WrittenCost | ift/encoder/entry_graph.cc:65-128 | The entries cost together what the live nodes cost that they were written from. |
| EntryGrowth.NormalFormNodes | ift/encoder/entry_graph.cc:193-284 | The normal form of a condition needs no more nodes than its groups are counted to need. |
| EntryGrowth.EnoughIds | ift/encoder/entry_graph.cc:357-372 | Within the bound, all nodes of compiling and all that optimising may add have ids below 2^32. |
| SubsetDefinitions.UnionAxisRanges | ift/encoder/entry_graph.cc:420-445 | Merging axis by axis, in any order, gives the union of the two spaces, and fails exactly when some axis has a gap between its ranges. |
| SubsetDefinitions.IntersectsMeans | ift/common/axis_range.h:33-36 | Two ranges of an axis intersect exactly when some point is in both. |
| SubsetDefinitions.MergeableMeans | ift/encoder/entry_graph.cc:420-445 | Two ranges can be merged exactly when the range from the lower to the upper end holds no point outside both. |
| EntrySubsumption.FillsWhereFree | ift/encoder/entry_graph.cc:605-715 | A child fills a node exactly when it has one set, of a kind of which the node has none. |
| StrongComponents.StronglyConnectedComponents | ift/dep_graph/dependency_graph.cc:570-738 | For any graph that stays within finitely many nodes, the components partition exactly what the roots reach, each is a maximal set of nodes that reach one another, and edges never lead to an earlier component. |
| StrongComponents.ComponentFinder.StrongConnect | ift/dep_graph/dependency_graph.cc:624-687 | The loop with its explicit stack ends, visits the start node, and keeps every invariant of the search. |
| StrongComponents.ComponentFinder.PopComponent | ift/dep_graph/dependency_graph.cc:665-677 | Popping takes exactly the nodes from the root of the component up, and marks just those as off the stack. |
| TarjanState.Enter | ift/dep_graph/dependency_graph.cc:634-643 | Entering a node gives it the next index and keeps the invariant of stack, frames, owners, links and finished components. |
| TarjanState.Descend | ift/dep_graph/dependency_graph.cc:645-655 | Descending along an edge to a new node keeps the invariant. |
| TarjanState.Look | ift/dep_graph/dependency_graph.cc:646-661 | Lowering the link for a visited successor that is still on the stack, and passing over one that is not, keeps the invariant. |
| TarjanState.TopIsComponent | ift/dep_graph/dependency_graph.cc:665-677 | When the link of a finished node is its own index, the stack from that node up is a strongly connected component. |
| TarjanState.Complete | ift/dep_graph/dependency_graph.cc:665-684 | Finishing such a node, with its component taken off the stack, keeps the invariant. |
| TarjanState.Backtrack | ift/dep_graph/dependency_graph.cc:679-684 | Finishing any other node, with its link passed on to its parent, keeps the invariant. |
| ConditionPropagation.EdgeConditionsToActivationCondition | ift/encoder/dependency_closure.cc:408-455 | The result is the condition under which all groups of the edge are met, or none if they never are; with a single node it is the condition of that node itself. An error is returned exactly for an empty list of groups or an empty group that is come to. |
| ConditionPropagation.UpdateNode | ift/encoder/dependency_closure.cc:469-521 | Afterwards the node is reached exactly where it was before or where one of its edges is met; other nodes are as before, and a change is reported exactly as one. A node that is new and has one edge from one node gets the very condition of that node, flags included; a condition that was there and changes is not exclusive any more and keeps its patches. |
| ConditionPropagation.Stabilize | ift/encoder/dependency_closure.cc:462-529 | Repeating passes over a component ends, and every node of it is then stable; one pass is enough for a single node. |
| ConditionPropagation.PropagateConditions | ift/encoder/dependency_closure.cc:457-532 | With components in order, for every set of active segments, the nodes whose conditions hold are the least set that contains the start and that the edges do not leave. |
| NodeConditions.UpdatedIsStable | ift/encoder/dependency_closure.cc:523-527 | One update makes a node stable even if its own edges require it, so components of one node need a single pass. |
| NodeConditions.MovedHasLessRoom | ift/encoder/dependency_closure.cc:464-521 | Every reported change, also one that only drops the exclusive flag, lowers a measure; this is why the loop ends. |
| SymbolicTraversal.CollectIncomingEdges | ift/dep_graph/dependency_graph.cc:1290-1339 | What is collected is exactly the requirements of all edges of the given nodes that may be followed, each listed where its edge leads. |
| SymbolicTraversal.FollowedHasContext | ift/dep_graph/dependency_graph.cc:284-312 | An edge that may be followed has no empty context group. |
| ClosurePhase.ComponentsAreOrdered | ift/dep_graph/dependency_graph.cc:734-738 | The order of the components is one that propagation can follow. |
| ClosurePhase.PropagatePhase | ift/encoder/dependency_closure.cc:658-726 | If whatever an edge needs leads, by an edge of its own, to where the edge leads: collecting requirements, finding components among the kept nodes and propagating never fails, and for every set of active segments the nodes whose conditions hold are exactly those that a traversal visits. With traversals that leave the initial font alone, this holds if the initial font is closed and every needed node lists the edge, and only if it is closed when nothing else holds at the start without active segments. |
| ClosurePhase.VisitedIsKept | ift/encoder/dependency_closure.cc:534-575 | A traversal without context finds all nodes that have to be kept. |
| ClosurePhase.FiresWithin | ift/encoder/dependency_closure.cc:658-726 | Where an edge fires there is a component or the initial font, so that no node is passed over. |
| ClosurePhase.RestNeedsClosed | ift/dep_graph/dependency_graph.cc:778-869 | If the initial font is not closed, and nothing else holds at the start without active segments, propagation and traversals that leave the initial font alone disagree. |
| DependencyEdges.PairListed | ift/dep_graph/dependency_graph.cc:901-942 | A variation sequence or a composition is listed at both of its code points, with different sources and the same needs. |
| DependencyEdges.LigatureListed | ift/dep_graph/dependency_graph.cc:945-1011 | A ligature is listed at each of its glyphs, with different sources and the same needs, if the font data has it for each of them. |
| DependencyEdges.SubstitutionListed | ift/dep_graph/dependency_graph.cc:998-1038 | A substitution is listed at everything that it needs: its glyph, its feature, the rest of its ligature, the glyphs of its context. |
| DependencyEdges.ContextMember | ift/dep_graph/dependency_graph.cc:1217-1247 | Exactly the substitutions with a glyph in their context are listed at that glyph. |
| DependencyEdges.FeatureMember | ift/dep_graph/dependency_graph.cc:1249-1287 | Exactly the substitutions that a feature turns on are listed at the feature. |
| DependencyEdges.UnicodeEdgesAre | ift/dep_graph/dependency_graph.cc:901-942 | Exactly these edges are listed at a code point: to its glyph, to each code point it decomposes into, to its mirror image if that is another one, and of the variation sequences and compositions that it is part of. |
| DependencyEdges.DefinitionMember | ift/dep_graph/dependency_graph.cc:1055-1067 | A segment, and the initial font, lead to exactly the code points and features of their definition. |
| FontPhases.FontListsNeeds | ift/dep_graph/dependency_graph.cc:552-567 | In every phase, every conjunctive edge of a font is listed at every node that it needs. |
| FontPhases.FontEdgesInPlace | ift/dep_graph/dependency_graph.cc:1341-1380 | In every phase, edges lead to nodes whose own edges are collected, and need only nodes that traversals of the phase start from. |
| FontPhases.FontFilters | ift/dep_graph/dependency_graph.cc:580-604 | The filters of the component search and of traversals let exactly those edges through that are collected and lead to kept nodes, or outside the initial font. |
| FontClosure.CloseFontPhase | ift/encoder/dependency_closure.cc:658-726 | For every font whose ligatures are listed at each of their glyphs, every phase and every set of active segments, the nodes whose conditions hold are exactly those that a traversal of the font's edges visits, and exactly the least set closed under the rules of the font: a definition brings its code points and features, a code point its glyph, decomposition and mirror image, two code points their composition or variation, and glyphs what substitutions and glyph tables make of them. With traversals that leave the initial font alone, the agreement holds if the initial font is closed, and only if it is when nothing else holds at the start without active segments. |
| FontClosure.ClosedAlike | ift/dep_graph/dependency_graph.cc:740-767 | A set of nodes is closed under the edges that traversals of a phase follow exactly if it is closed under the rules of the font. |
| FontClosure.CodePointHasGlyph | ift/dep_graph/dependency_graph.cc:903-908 | In the first phase, for every set of active segments, a code point that is there brings the glyph it is mapped to. |
| FontPhases.LigatureIsListed | ift/dep_graph/pending_edge.h:45-54 | For a font with the ligature of f and i, the edges at f and at i have sources of their own, neither is listed at the other glyph, each stands for the other there, and both are collected. |
| MergedConditions.MergeAgrees | ift/encoder/dependency_closure.cc:111-154 | Renaming merged segments in finished conditions gives, for every node but segments, group for group what propagating anew after the merge gives. |
| MergedConditions.FlagsMayDiffer | ift/encoder/activation_condition.cc:251-297 | For some condition, renaming a merged segment gives an exclusive condition while propagating anew gives the same groups without the flag. |
| DependencyClosure.DependencyClosure.constructor | ift/encoder/dependency_closure.cc:90-109 | The lookups start as the exact reverse index of the conditions, and inert segments are exactly the given ones that no glyph's condition combines with others. |
| DependencyClosure.DependencyClosure.UpdateNodeConditionsCache | ift/encoder/dependency_closure.cc:111-154 | Every condition is renamed, the reverse index stays exact, the merged segments stop being inert, the base is inert exactly if all affected conditions are unitary, and inert segments stay soundly inert if the base is among the merged. |
| DependencyClosure.DependencyClosure.SegmentsToAffectedNodeConditions | ift/encoder/dependency_closure.cc:168-178 | The result is exactly the nodes that are indexed under one of the segments. |
| DependencyClosure.DependencyClosure.ComputeInertSegments | ift/encoder/dependency_closure.cc:728-738 | A candidate is inert exactly if no glyph's condition combines it with others. |
| GraphTraversal.TraversalContext.TraverseGraph | ift/dep_graph/dependency_graph.cc:740-767 | The traversal ends having visited exactly the least set that contains the start and that enabled edges do not leave; what stays pending is not satisfied, and nothing else was dropped but edges that could never be. |
| GraphTraversal.TraversalContext.CheckPending | ift/dep_graph/dependency_graph.cc:513-531 | Nothing new is queued if and only if nothing new was visited, and then no edge that stays pending is satisfied, although the loop may have done work. |
| GraphTraversal.TraversalContext.TraverseConjunctive | ift/dep_graph/dependency_graph.cc:534-549 | A conjunctive edge is followed, or waits, or is left because it can never be satisfied. |
| GraphTraversal.TraversalContext.HandleOutgoingEdges | ift/dep_graph/dependency_graph.cc:552-567 | All edges of a node are taken care of, and those of other nodes stay so. |
| TraversalState.Follow | ift/dep_graph/dependency_graph.cc:457-502 | Following an enabled edge keeps the invariant of the traversal and everything that was taken care of. |
| TraversalState.Finished | ift/dep_graph/dependency_graph.cc:740-767 | With nothing queued and nothing satisfied pending, the least closed set has been visited. |
| TraversalState.HopelessStays | ift/dep_graph/dependency_graph.cc:247-275 | An edge that is dropped because its code points cannot be reached stays unsatisfiable, whatever is visited later. |
| SymbolicTraversal.RequirementsAgree | ift/dep_graph/dependency_graph.cc:1146-1215 | The extracted groups are met exactly when a traversal finds the edge satisfied, except for edges with an empty context group. |
| SymbolicTraversal.EmptyContextDiffers | ift/dep_graph/dependency_graph.cc:333-376 | For one such edge the groups are met while a traversal waits for ever. |
| SymbolicTraversal.RequirementsWellFormed | ift/dep_graph/dependency_graph.cc:1146-1215 | No edge gives an empty list of groups or an empty group, so that propagation meets no error. |
| SymbolicTraversal.ConditionsMatchTraversal | ift/encoder/dependency_closure.cc:457-532 | What forward chaining reaches from a start is, outside the nodes known beforehand, exactly what a traversal visits from the rest of that start. |
| ComplexConditionFinder.FindSupersetDisjunctiveConditionsFor | ift/encoder/complex_condition_finder.cc:274-322 | For any monotone closure without influence from out of scope: no internal error occurs, the result is fine exactly for valid input, and each glyph then has one condition, the one that analysing it alone gives, which meets every activating set and is made only of its existing condition and of smallest activating sets. |
| ComplexConditionFinder.ExistingConditions | ift/encoder/complex_condition_finder.cc:257-272 | Glyphs with disjunctive conditions are grouped by exactly those conditions. |
| ComplexConditionFinder.Context.ScheduleInitialTasks | ift/encoder/complex_condition_finder.cc:52-87 | Every glyph gets a search or is settled by its existing condition; the status is fine exactly for valid input. |
| ComplexConditionFinder.Context.ScheduleExistingConditionTask | ift/encoder/complex_condition_finder.cc:159-175 | A search is set up for exactly the glyphs that are needed even without their existing condition. |
| ComplexConditionFinder.Context.RunAnalysisTask | ift/encoder/complex_condition_finder.cc:196-226 | A test of the smallest segment splits the glyphs of a task into sound tasks of less work; no glyph comes to be in two tasks, and each stays on the way to the answer that it would have alone; no error is met. |
| ComplexConditionFinder.Context.RecordSubCondition | ift/encoder/complex_condition_finder.cc:230-254 | Recording adds a smallest activating set to the condition of each glyph, searches on without it where needed, never runs out of segments, and leaves less work. |
| ComplexConditionFinder.Context.ProcessQueue | ift/encoder/complex_condition_finder.cc:89-99 | The queue becomes empty and no task fails. |
| FinderTasks.TestedTasksOk | ift/encoder/complex_condition_finder.cc:117-138 | Glyphs that the closure without the tested segment still has go on without it, and the others keep it; both tasks are sound. |
| FinderTasks.InvRecord | ift/encoder/complex_condition_finder.cc:230-254 | Recording and going on with the next search keeps the invariant of the queue, and the next search always has something to test. |
| FinderTasks.RecordingIsLessWork | ift/encoder/complex_condition_finder.cc:230-254 | The search that follows a record counts for less than the task it came from; this is why the queue empties. |
| FinderTasks.MinimalHasNoSmaller | ift/encoder/complex_condition_finder.cc:196-226 | A set from which no single segment can be left out has no smaller activating subset. |
| FinderAnswers.KeptFromAll | ift/encoder/complex_condition_finder.cc:196-226 | The set found for a glyph among segments that are not excluded is a smallest activating one, and without any one of its segments not even all larger segments make up for it. |
| FinderAnswers.LastUnique | ift/encoder/complex_condition_finder.cc:196-226 | There is only one such set, however it is found. |
| FinderAnswers.TestKeepsCourse | ift/encoder/complex_condition_finder.cc:207-224 | After a test of the smallest segment, both tasks lead each of their glyphs to the answer that it would have alone. |
| FinderAnswers.ExactRecord | ift/encoder/complex_condition_finder.cc:230-254 | Recording keeps every glyph in exactly one task that leads to its answer, or with its answer found. |
| UnionFind.ChainsAreShort | ift/encoder/glyph_partition.cc:107-117 | Two to the number of steps to a root is at most the size of the class, so chains are logarithmic. |
| UnionFind.Compressed | ift/encoder/glyph_partition.cc:107-117 | Path compression changes no class. |
| UnionFind.UniteLinked | ift/encoder/glyph_partition.cc:63-91 | Linking two roots makes the classes the finest that have the two elements together as well. |
| UnionFind.LinkSized | ift/encoder/glyph_partition.cc:63-91 | Linking by rank keeps every class at least as large as two to the rank of its root. |
| GlyphPartition.GlyphPartition.Find | ift/encoder/glyph_partition.cc:107-117 | Find gives the representative, points the element at it and changes no class; it fails exactly out of bounds. |
| GlyphPartition.GlyphPartition.Union | ift/encoder/glyph_partition.cc:63-91 | The classes are the finest that all unions so far ask for, this one included; it fails, and changes no class, exactly if a glyph is out of bounds. |
| GlyphPartition.GlyphPartition.UnionAll | ift/encoder/glyph_partition.cc:38-61 | The classes become the finest that also have all the glyphs within bounds together; it fails exactly if one of them is out of bounds. |
| GlyphPartition.GlyphPartition.UnionPartition | ift/encoder/glyph_partition.cc:93-105 | The classes become the finest that have together what either partition has; it fails exactly if the sizes differ. |
| GlyphPartition.GlyphPartition.GlyphsFor | ift/encoder/glyph_partition.cc:119-131 | The glyphs returned are exactly those that the unions so far connect to the glyph, and the cache is valid afterwards. |
| GlyphPartition.GlyphPartition.NonIdentityGroups | ift/encoder/glyph_partition.cc:133-138 | The result is, in order, exactly the classes with more than one glyph. |
| GlyphPartition.GlyphPartition.RebuildCache | ift/encoder/glyph_partition.cc:140-158 | Afterwards the cache holds exactly the current classes. |
| GlyphPartition.GlyphPartition.Assign | ift/encoder/glyph_partition.cc:28-36 | The links are copied and the old cache is kept; it is right if and only if there was none, or both partitions had the same representatives. |
| GlyphPartition.CacheFitsBoth | ift/encoder/glyph_partition.cc:140-158 | A cache that fits one forest fits another exactly if they have the same representatives. |
| GlyphPartition.AssignedCacheIsWrong | ift/encoder/glyph_partition.cc:28-36 | Uniting two glyphs, asking for their group and then assigning a fresh partition ends with a wrong cache. |
| BrotliBits.BrotliBitBuffer.AppendNumber | brotli/brotli_bit_buffer.cc:9-29 | The lowest bits of the number follow what was written, lowest first, across as many bytes as it takes. |
| BrotliStream.ToCopyCode | brotli/brotli_stream.cc:31-75 | For every length from 2 to 2^24 the code and its extra bits decode to the length by the tables of section 5 of RFC 7932. |
| BrotliStream.InsertAndCopyCode | brotli/brotli_stream.cc:77-95 | The symbol lies where it means inserting nothing, and the copy length is read off it and its extra bits. |
| BrotliStream.PostfixBitsReach | brotli/brotli_stream.cc:17-29 | The number of postfix bits is the least with which the distance can be expressed. |
| BrotliStream.MaxDistanceReached | brotli/brotli_stream.cc:17-29 | The distance taken as the limit is the one that the last distance symbol means with all its extra bits set. |
| BrotliStream.DirectEncoderWorks | brotli/brotli_stream.cc:97-105 | Distance codes can be made as it is assumed: an encoder after section 4 of RFC 7932 gives codes that mean their distances. |
| BrotliStream.WindowCodeRead | brotli/brotli_stream.cc:342-363 | Every entry of the table is read back as its window size, by section 9.1 of RFC 7932. |
| BrotliStream.BrotliStream.AddMlen | brotli/brotli_stream.cc:303-340 | The length is read back from the header, its top nibble is not zero, and the stream header comes first in an empty stream; it fails, and writes nothing, exactly for lengths over 2^24. |
| BrotliStream.BrotliStream.AddPrefixTree | brotli/brotli_stream.cc:365-369 | What is written is read back as a prefix code of this one symbol. |
| BrotliStream.BrotliStream.InsertFromDictionary | brotli/brotli_stream.cc:107-185 | The stream stays readable, only copies of 2 to 2^24 bytes are added, and executing them appends exactly the range of the dictionary, split where it has to be. |
| BrotliStream.BrotliStream.InsertUncompressed | brotli/brotli_stream.cc:187-204 | The stream stays readable and executing it appends exactly the bytes; for zero bytes what is left can not be read on. |
| BrotliStream.BrotliStream.ByteAlign | brotli/brotli_stream.cc:270-276 | The stream ends with a byte, reads as before with at most one empty meta-block more, and gives the same output. |
| BrotliStream.BrotliStream.Append | brotli/brotli_stream.h:51-58 | A stream started where this one has got to can be appended, and the output is then that of the other. |
| BrotliStream.BrotliStream.FourByteAlignUncompressed | brotli/brotli_stream.h:69-77 | At most three zeros are added, and the output is a multiple of four bytes long. |
| BrotliStream.BrotliStream.EndStream | brotli/brotli_stream.cc:278-282 | Unless the stream is empty it ends with the last meta-block and can be read to its end, giving all that was inserted. |
| BrotliStream.EmptyStreamUnreadable | brotli/brotli_stream.cc:278-282 | What ending an empty stream leaves is not read as any meta-blocks. |
| BrotliStream.JoinStreams | brotli/brotli_stream.h:51-58 | The bits of two streams, joined at the end of a byte, read as the meta-blocks of both and give the output of the second. |
| BrotliFormat.BlockMoves | brotli/brotli_stream.cc:107-204 | A meta-block is read in the same way wherever its bits stand, as long as they keep their place within a byte. |
| BrotliFormat.ReadsOneMore | brotli/brotli_stream.cc:107-204 | A meta-block that was written after others is read after them. |

## Left out

* Size estimates of trees (`EstimateTreeSize`, `AdvanceToCp`), which use floating point: `ChooseBranchFactor` takes any
  function as the estimated number of bytes.
* How HarfBuzz sets store and insert values: sets are mathematical sets, and a bulk insertion is a union. They cannot
  hold 0xFFFFFFFF, which is why the encoder is given values below it.
* While the encoder skips a filled node, the end of the filled run is not moved when an existing filled node follows;
  this is modelled as it is, and the proof shows that it does no harm.
* The cost of an entry is any function of its sets, its mode and the number of its children; how a patch map format
  estimates it is not part of this model.
* Axes of the design space have real bounds, without the rounding of floating point.
* The three maps from single sets to node ids are one map here, keyed by definitions with one set.
* Segments have distinct definitions that are not empty, and groups name known segments, wherever conditions are
  compiled; equal definitions would share a node that is registered under one segment only.
- EntryGraph.ConditionsToEntries: that it succeeds is stated under a bound on the sizes of the conditions and on the
  costs, within which node ids cannot reach 2^32; beyond the bound only what a success means is stated.
* Glyph ids of segments, prefetch lists and probabilities of conditions.
* Fonts, tables and HarfBuzz lookups behind the dependency graph: the outgoing edges of a node are given as a list, and
  errors while reading lookup sets do not occur.
- ClosurePhase.PropagatePhase: is about one phase; the caches that `UpdateAllNodeConditions` keeps between its phases
  and between calls, and collecting anew for a part of the nodes only, are not part of this model.
- FontClosure.CloseFontPhase: that a ligature is a dependency of each of its glyphs is what the library promises for its
  data, and assumed; pairs of code points and contexts are listed as the source lists them. That the kept nodes are all
  that the start leads to is assumed of a phase, too; `VisitedIsKept` says which traversal finds them.
- MergedConditions.MergeAgrees: is about the groups; the exclusive flags need not agree, see above.
* Sorting and removing duplicates from extracted groups, which does not change when they are met.
* The set of modified nodes only has the nodes that got a condition for the first time, as in the source.
- DependencyClosure.DependencyClosure.UpdateNodeConditionsCache: that inert segments are soundly inert afterwards is
  stated for a base that is among the merged segments, as every caller has it; segments that become inert by the merge
  are not found by the source either.
* The record that a traversal keeps of its edges, apart from those that stay pending.
* The closure of a set of segments is any monotone function in which segments out of scope make no difference for the
  glyphs at hand; merging heuristics and patch sizes are not part of this model.
* Sorting and reversing of vectors are functions on sequences.
* `PrefixEncodeCopyDistance` of the Brotli library: distance codes are assumed to mean their distances, and
  `DirectEncoderWorks` gives an encoder that makes such codes.
* `insert_compressed` and `insert_compressed_with_partial_dict`, which call the Brotli compressor; `append_prefix_code`, which the writer does not use.
* The width of the distance alphabet, computed with logarithms in the source, is a table of the four widths.
- BrotliStream.BrotliStream.constructor: dictionary and window together are at most the largest distance that three
  postfix bits can express, as larger distances have no code (`LargeDictionaryFits`: 520093680 bytes fit any window); the uncompressed size stays below 2^32.
- BrotliStream.BrotliStream.InsertUncompressed: for zero bytes the stream does not stay readable, see above.
- SparseEncoder.EncodeAutomatic: the round trip is stated for sets that are not empty, see above.
* Cached hashes, texts of errors, logging, configuration and command line tools.
