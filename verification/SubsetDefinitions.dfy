/** Subset definitions: codepoints, feature tags and axis ranges, and when an input meets them. */
module SubsetDefinitions {
  import opened Wrappers

  datatype Range = Range(start: real, end: real) {
    predicate Intersects(other: Range) {
      other.end >= start && end >= other.start
    }
  }

  type AxisRange = r: Range | r.start <= r.end witness Range(0.0, 0.0)

  type Space = map<nat, AxisRange>

  datatype SubsetDefinition = SubsetDefinition(codepoints: set<nat>, features: set<nat>, space: Space) {
    predicate Empty() {
      codepoints == {} && features == {} && space == map[]
    }

    /** How many of the three local sets are not empty. */
    function NonEmptySets(): nat {
      (if codepoints != {} then 1 else 0) + (if features != {} then 1 else 0) + (if space != map[] then 1 else 0)
    }

    /** Some local set intersects the input: how a segment's definition is met. */
    ghost predicate MetBy(input: SubsetDefinition) {
      codepoints * input.codepoints != {} || features * input.features != {} || SpaceMeets(space, input.space)
    }

    /** Every local set that is not empty intersects the input: how an entry's own sets are matched. */
    ghost predicate MatchedBy(input: SubsetDefinition) {
      && (codepoints != {} ==> codepoints * input.codepoints != {})
      && (features != {} ==> features * input.features != {})
      && (space != map[] ==> SpaceMeets(space, input.space))
    }
  }

  const NOTHING := SubsetDefinition({}, {}, map[])

  ghost predicate SpaceMeets(a: Space, input: Space) {
    exists tag :: tag in a && tag in input && a[tag].Intersects(input[tag])
  }

  lemma OneSetMatchesIfMet(d: SubsetDefinition, input: SubsetDefinition)
    requires d.NonEmptySets() == 1
    ensures d.MatchedBy(input) <==> d.MetBy(input)
  {
  }

  // ---------- unions ----------

  ghost predicate Contains(r: Range, p: real) {
    r.start <= p <= r.end
  }

  /** Ranges intersect when some point is in both. */
  lemma IntersectsMeans(a: AxisRange, b: AxisRange)
    ensures a.Intersects(b) <==> exists p :: Contains(a, p) && Contains(b, p)
  {
    if a.Intersects(b) {
      var p := if a.start <= b.start then b.start else a.start;
      assert Contains(a, p) && Contains(b, p);
    }
  }

  /** Two ranges of an axis can be merged when they overlap or touch. */
  predicate Mergeable(a: AxisRange, b: AxisRange) {
    a == b || a.Intersects(b) || a.end == b.start || b.end == a.start
  }

  function MergeRanges(a: AxisRange, b: AxisRange): (r: AxisRange)
    ensures Mergeable(a, b) ==> forall c: AxisRange :: r.Intersects(c) <==> a.Intersects(c) || b.Intersects(c)
  {
    Range(if a.start <= b.start then a.start else b.start, if a.end >= b.end then a.end else b.end)
  }

  /** Ranges can be merged when they leave no gap: every point that the merged range holds is in one of them. */
  lemma MergeableMeans(a: AxisRange, b: AxisRange)
    ensures Mergeable(a, b) <==> forall p :: Contains(MergeRanges(a, b), p) ==> Contains(a, p) || Contains(b, p)
    ensures forall p :: Contains(a, p) || Contains(b, p) ==> Contains(MergeRanges(a, b), p)
  {
    if !Mergeable(a, b) {
      var p := if a.end < b.start then (a.end + b.start) / 2.0 else (b.end + a.start) / 2.0;
      assert Contains(MergeRanges(a, b), p) && !Contains(a, p) && !Contains(b, p);
    }
  }

  ghost predicate CanUnion(a: Space, b: Space) {
    forall tag :: tag in a && tag in b ==> Mergeable(a[tag], b[tag])
  }

  ghost function UnionSpaces(a: Space, b: Space): (r: Space)
    ensures r.Keys == a.Keys + b.Keys
  {
    map tag | tag in a.Keys + b.Keys ::
      if tag !in b then a[tag] else if tag !in a then b[tag] else MergeRanges(a[tag], b[tag])
  }

  /** The union of two design spaces meets exactly what either of them meets. */
  lemma UnionSpacesMeets(a: Space, b: Space, input: Space)
    requires CanUnion(a, b)
    ensures SpaceMeets(UnionSpaces(a, b), input) <==> SpaceMeets(a, input) || SpaceMeets(b, input)
  {
    var u := UnionSpaces(a, b);
    if SpaceMeets(a, input) {
      var tag :| tag in a && tag in input && a[tag].Intersects(input[tag]);
      assert u[tag].Intersects(input[tag]);
    }
    if SpaceMeets(b, input) {
      var tag :| tag in b && tag in input && b[tag].Intersects(input[tag]);
      assert u[tag].Intersects(input[tag]);
    }
  }

  /** Every axis of `other` outside `rest` has been merged into `result`. */
  ghost predicate MergedExcept(result: Space, other: Space, rest: set<nat>, merged: Space) {
    && rest <= other.Keys
    && merged.Keys == result.Keys + (other.Keys - rest)
    && (forall tag :: tag in merged ==>
         merged[tag] == if tag in rest then (if tag in result then result[tag] else merged[tag])
                        else UnionSpaces(result, other)[tag])
    && (forall tag :: tag in result && tag in other && tag !in rest ==> Mergeable(result[tag], other[tag]))
  }

  lemma MergeAxis(result: Space, other: Space, rest: set<nat>, merged: Space, tag: nat)
    requires MergedExcept(result, other, rest, merged) && tag in rest
    ensures tag in merged <==> tag in result
    ensures tag in result ==> merged[tag] == result[tag]
    ensures tag in result && merged[tag] == other[tag] ==> MergedExcept(result, other, rest - {tag}, merged)
    ensures tag !in result || Mergeable(result[tag], other[tag]) ==>
              MergedExcept(result, other, rest - {tag}, merged[tag := UnionSpaces(result, other)[tag]])
  {
    assert tag in result && merged[tag] == other[tag] ==> UnionSpaces(result, other)[tag] == merged[tag];
    hide MergeRanges, Mergeable;
    if tag !in result || Mergeable(result[tag], other[tag]) {
      var after := merged[tag := UnionSpaces(result, other)[tag]];
      assert after.Keys == merged.Keys + {tag};
      assert after.Keys == result.Keys + (other.Keys - (rest - {tag}));
      assert tag in result && merged[tag] == other[tag] ==> after == merged;
    }
  }

  /** UnionAxisRanges: merges axis by axis, in any order, and fails on ranges with a gap between them. */
  method UnionAxisRanges(result: Space, other: Space) returns (r: Option<Space>)
    ensures r == if CanUnion(result, other) then Some(UnionSpaces(result, other)) else None
  {
    var merged: Space := result;
    var rest := other.Keys;
    NothingMerged(result, other);
    hide MergedExcept;
    while rest != {}
      invariant rest <= other.Keys && MergedExcept(result, other, rest, merged)
      decreases |rest|
    {
      var tag :| tag in rest;
      MergeAxis(result, other, rest, merged, tag);
      if tag !in merged {
        merged := merged[tag := other[tag]];
      } else if merged[tag] != other[tag] {
        if !merged[tag].Intersects(other[tag])
           && merged[tag].end != other[tag].start && other[tag].end != merged[tag].start {
          return None;
        }
        merged := merged[tag := MergeRanges(merged[tag], other[tag])];
      }
      rest := rest - {tag};
    }
    AllMerged(result, other, merged);
    return Some(merged);
  }

  lemma AllMerged(result: Space, other: Space, merged: Space)
    requires MergedExcept(result, other, {}, merged)
    ensures CanUnion(result, other) && merged == UnionSpaces(result, other)
  {
    assert merged.Keys == result.Keys + other.Keys;
  }

  lemma NothingMerged(result: Space, other: Space)
    ensures MergedExcept(result, other, other.Keys, result)
  {
    assert result.Keys == result.Keys + (other.Keys - other.Keys);
  }

  /** The union of two definitions, when their design spaces can be merged. */
  ghost function UnionOf(a: SubsetDefinition, b: SubsetDefinition): SubsetDefinition {
    SubsetDefinition(a.codepoints + b.codepoints, a.features + b.features, UnionSpaces(a.space, b.space))
  }

  lemma UnionMetBy(a: SubsetDefinition, b: SubsetDefinition, input: SubsetDefinition)
    requires CanUnion(a.space, b.space)
    ensures UnionOf(a, b).MetBy(input) <==> a.MetBy(input) || b.MetBy(input)
    ensures UnionOf(a, b).Empty() <==> a.Empty() && b.Empty()
  {
    UnionSpacesMeets(a.space, b.space, input.space);
    assert (a.codepoints + b.codepoints) * input.codepoints == a.codepoints * input.codepoints + b.codepoints * input.codepoints;
    assert (a.features + b.features) * input.features == a.features * input.features + b.features * input.features;
    assert UnionSpaces(a.space, b.space) == map[] <==> a.space.Keys + b.space.Keys == {};
  }
}
