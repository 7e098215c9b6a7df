/** The detector variant whose markers carry their own checksum: besides the
    regions that hold the code's digits, a marker may hold one extra region
    filled with "hollow dots" (a dot with a single hole inside), and the
    number of those dots is a checksum over the digits.

    The contour hierarchy is given by two of its columns: `first[i]`, the
    first child of contour `i`, and `next[i]`, its next sibling, each an
    index or negative for none. The superclass this detector extends is not
    part of this model: its hooks and its two settings are fields of
    `Detector`. */
module EmbeddedChecksum {
  import opened JavaLang
  import ExperienceRules
  import opened Arithmetic

  // ---------------------------------------------------------------------------
  // The checksum
  // ---------------------------------------------------------------------------

  /** The weight of the digit at position `i`: 1, 2, ..., 6, 8, ..., 13, 15,
      ..., the positive numbers that are not multiples of 7. */
  function Weight(i: nat): nat {
    i + 1 + i / 6
  }

  /** `value + (value + value / 7) / 7`, Java's truncating division: meant to
      move a digit value past the multiples of 7, as the weights are. */
  function Transform(v: int): int {
    v + JDiv(v + JDiv(v, 7), 7)
  }

  /** The digits of a list of regions, in order. */
  function Values(regions: seq<MarkerRegion>): (vs: seq<int>)
    ensures |vs| == |regions| && forall i | 0 <= i < |regions| :: vs[i] == regions[i].value
  {
    if regions == [] then [] else Values(regions[..|regions| - 1]) + [regions[|regions| - 1].value]
  }

  /** The weighted sum of `hasValidChecksum`: each transformed digit times
      the weight of its position. */
  function TransformedWeightedSum(vs: seq<int>): int {
    if vs == [] then 0
    else TransformedWeightedSum(vs[..|vs| - 1]) + Transform(vs[|vs| - 1]) * Weight(|vs| - 1)
  }

  /** `(weightedSum - 1) % 7 + 1`, Java's remainder. */
  function Reduction(w: int): int {
    JRem(w - 1, 7) + 1
  }

  /** No weight is a multiple of 7, and the weights run through the other
      positive numbers in order, skipping exactly the multiples of 7. */
  lemma WeightsSkipMultiplesOf7(i: nat)
    ensures Weight(i) % 7 != 0
    ensures Weight(i + 1) == if (Weight(i) + 1) % 7 == 0 then Weight(i) + 2 else Weight(i) + 1
  {
    var q, r := i / 6, i % 6;
    assert i == 6 * q + r;
    assert Weight(i) == 7 * q + r + 1;
    ModOf(7, q, r + 1);
    if r == 5 {
      assert i + 1 == 6 * (q + 1);
      assert Weight(i + 1) == 7 * (q + 1) + 1;
      ModOf(7, q + 1, 0);
    } else {
      assert i + 1 == 6 * q + (r + 1);
      assert Weight(i + 1) == 7 * q + r + 2;
      ModOf(7, q, r + 2);
    }
  }

  /** For a digit from 1 to 54 the transform gives the digit-th positive
      number that is not a multiple of 7 (1..6, 8..13, 15, ...). */
  lemma TransformSkipsMultiplesOf7(v: int)
    requires 1 <= v <= 54
    ensures Transform(v) == v + (v - 1) / 6
    ensures Transform(v) % 7 != 0
  {
    var q, r := (v - 1) / 6, (v - 1) % 6;
    assert v == 6 * q + r + 1;
    assert 0 <= q <= 8;
    // one case per block of six digits
    if q == 0 {
    } else if q == 1 {
    } else if q == 2 {
    } else if q == 3 {
    } else if q == 4 {
    } else if q == 5 {
    } else if q == 6 {
    } else if q == 7 {
    } else {
    }
  }

  /** From 55 on the transform no longer keeps clear of the multiples of 7:
      55 becomes 63 (and 301 becomes 350). */
  lemma TransformHitsMultipleOf7()
    ensures Transform(55) == 63 && Transform(55) % 7 == 0
    ensures Transform(301) == 350 && Transform(301) % 7 == 0
  {
  }

  /** The transform the source comment describes: value `v` becomes the
      `v`-th positive number that is not a multiple of 7, for every `v >= 1`
      (0 stays 0). It is the weight of position `v - 1`. */
  function SkipSevens(v: int): int {
    if v <= 0 then v else Weight(v - 1)
  }

  /** The intended transform never lands on a multiple of 7, and runs
      through the other positive numbers in order. */
  lemma SkipSevensAvoidsMultiplesOf7(v: int)
    requires v >= 1
    ensures SkipSevens(v) % 7 != 0
    ensures SkipSevens(v + 1) == if (SkipSevens(v) + 1) % 7 == 0 then SkipSevens(v) + 2 else SkipSevens(v) + 1
  {
    WeightsSkipMultiplesOf7(v - 1);
  }

  /** On the values 1 to 54 the intended transform is the transform of the
      code, so only values of 55 and more are affected. */
  lemma SkipSevensMatchesTransform(v: int)
    requires 1 <= v <= 54
    ensures SkipSevens(v) == Transform(v)
  {
    TransformSkipsMultiplesOf7(v);
  }

  /** Where the two part first: 55 becomes 64 instead of 63. */
  lemma SkipSevensPast54()
    ensures SkipSevens(55) == 64 && Transform(55) == 63
  {
  }

  /** For a positive weighted sum the detector's reduction `(w - 1) % 7 + 1`
      is the value `w % 7`, or 7 when that is 0, that `Experience` demands. */
  lemma ReductionAgrees(w: int)
    requires w >= 1
    ensures Reduction(w) == ExperienceRules.EmbeddedChecksumValue(w)
  {
    var q, r := (w - 1) / 7, (w - 1) % 7;
    assert w - 1 == 7 * q + r;
    if r == 6 {
      ModOf(7, q + 1, 0);
      assert w == 7 * (q + 1) + 0;
    } else {
      ModOf(7, q, r + 1);
      assert w == 7 * q + (r + 1);
    }
  }


  /** On up to six digits from 0 to 6 the transform and the weights change
      nothing, so the sum is the plain weighted sum of `Experience`. */
  lemma {:induction false} SmallCodesKeepWeightedSum(vs: seq<int>)
    requires |vs| <= 6 && forall i | 0 <= i < |vs| :: 0 <= vs[i] <= 6
    ensures TransformedWeightedSum(vs) == ExperienceRules.WeightedSum(vs)
  {
    if vs != [] {
      var init := vs[..|vs| - 1];
      assert forall i | 0 <= i < |init| :: init[i] == vs[i];
      SmallCodesKeepWeightedSum(init);
      assert Transform(vs[|vs| - 1]) == vs[|vs| - 1];
      assert Weight(|vs| - 1) == |vs|;
    }
  }

  /** Digits of 0 add nothing: an all-empty code has weighted sum 0, which
      reduces to 0. */
  lemma {:induction false} ZeroCodeReduction(vs: seq<int>)
    requires forall i | 0 <= i < |vs| :: vs[i] == 0
    ensures TransformedWeightedSum(vs) == 0 && Reduction(TransformedWeightedSum(vs)) == 0
  {
    if vs != [] {
      var init := vs[..|vs| - 1];
      assert forall i | 0 <= i < |init| :: init[i] == vs[i];
      ZeroCodeReduction(init);
    }
  }

  /** The worked example of the source comment: 1:1:2:4:4 has weighted sum 45,
      so its checksum region must hold 3 dots. */
  lemma ChecksumExample()
    ensures TransformedWeightedSum([1, 1, 2, 4, 4]) == 45
    ensures Reduction(45) == 3
  {
    SmallCodesKeepWeightedSum([1, 1, 2, 4, 4]);
    ExperienceRules.WeightedSumExample();
  }

  // ---------------------------------------------------------------------------
  // Markers, hierarchy and the superclass hooks
  // ---------------------------------------------------------------------------

  /** A region of a marker: the contour it was read from and its value. */
  datatype MarkerRegion = MarkerRegion(index: int, value: int)

  /** A marker: its contour and regions; `WithEmbeddedChecksum` also carries
      the checksum region, if one was found. */
  datatype Marker =
    | Plain(index: int, regions: seq<MarkerRegion>)
    | WithEmbeddedChecksum(index: int, regions: seq<MarkerRegion>, checksumRegion: Option<MarkerRegion>)

  /** The settings and overridable steps of the superclass: `regionAt` is
      `createRegionForNode` (`None` for a child that is not a region) and the
      others are the methods of the same names. */
  datatype Detector = Detector(
    maxRegions: int,
    ignoreEmptyRegions: bool,
    regionAt: int -> Option<MarkerRegion>,
    isValidDot: int -> bool,
    sortCode: Marker -> Marker,
    isValidRegionList: Marker -> bool,
    superHasValidChecksum: Marker -> bool)

  /** The `FIRST_NODE` and `NEXT_NODE` columns of the contour hierarchy. */
  datatype Hierarchy = Hierarchy(first: seq<int>, next: seq<int>)

  /** Every link is an index of a contour or negative (none). */
  predicate WellFormed(h: Hierarchy) {
    |h.first| == |h.next| && forall i | 0 <= i < |h.first| :: h.first[i] < |h.first| && h.next[i] < |h.first|
  }

  /** `rank` goes down along every sibling link, so no chain of siblings
      runs in a circle. */
  ghost predicate Ranked(h: Hierarchy, rank: seq<nat>) {
    WellFormed(h) && |rank| == |h.next| && forall i | 0 <= i < |h.next| && h.next[i] >= 0 :: rank[h.next[i]] < rank[i]
  }

  /** The chain of siblings that starts at `cur`, in `NEXT_NODE` order. */
  ghost function Siblings(h: Hierarchy, rank: seq<nat>, cur: int): (s: seq<int>)
    requires Ranked(h, rank) && cur < |h.first|
    ensures forall k | 0 <= k < |s| :: 0 <= s[k] < |h.first|
    ensures forall x | x in s :: 0 <= x < |h.first|
    decreases if cur < 0 then 0 else rank[cur] + 1
  {
    if cur < 0 then [] else [cur] + Siblings(h, rank, h.next[cur])
  }

  /** The children of `node`, from `FIRST_NODE` on. */
  ghost function Children(h: Hierarchy, rank: seq<nat>, node: int): seq<int>
    requires Ranked(h, rank) && 0 <= node < |h.first|
  {
    Siblings(h, rank, h.first[node])
  }

  /** `isValidHollowDot`: the node has a child, that child has no sibling,
      and the child passes `isValidDot`. */
  predicate IsValidHollowDot(d: Detector, h: Hierarchy, node: int)
    requires WellFormed(h) && 0 <= node < |h.first|
  {
    h.first[node] >= 0 && h.next[h.first[node]] < 0 && d.isValidDot(h.first[node])
  }

  /** Every one of `dots` is a contour that is a hollow dot. */
  ghost predicate HollowDots(d: Detector, h: Hierarchy, dots: seq<int>)
    requires WellFormed(h)
  {
    forall k | 0 <= k < |dots| :: 0 <= dots[k] < |h.first| && IsValidHollowDot(d, h, dots[k])
  }

  /** What `getChecksumRegionAtNode` finds: a region worth the number of its
      children, when it has at least one and all of them are hollow dots. */
  ghost function ChecksumRegionSpec(d: Detector, h: Hierarchy, rank: seq<nat>, node: int): Option<MarkerRegion>
    requires Ranked(h, rank) && 0 <= node < |h.first|
  {
    var dots := Children(h, rank, node);
    if dots != [] && HollowDots(d, h, dots) then Some(MarkerRegion(node, |dots|)) else None
  }

  /** One more hollow dot counted. */
  lemma DotStep(d: Detector, h: Hierarchy, rank: seq<nat>, node: int, seen: seq<int>, cur: int)
    requires Ranked(h, rank) && 0 <= node < |h.first| && 0 <= cur < |h.first|
    requires seen + Siblings(h, rank, cur) == Children(h, rank, node)
    requires HollowDots(d, h, seen) && IsValidHollowDot(d, h, cur)
    ensures (seen + [cur]) + Siblings(h, rank, h.next[cur]) == Children(h, rank, node)
    ensures HollowDots(d, h, seen + [cur])
  {
    Unroll(h, rank, node, seen, cur);
  }

  /** A child that is no hollow dot means there is no checksum region. */
  lemma BadDot(d: Detector, h: Hierarchy, rank: seq<nat>, node: int, seen: seq<int>, cur: int)
    requires Ranked(h, rank) && 0 <= node < |h.first| && 0 <= cur < |h.first|
    requires seen + Siblings(h, rank, cur) == Children(h, rank, node)
    requires !IsValidHollowDot(d, h, cur)
    ensures ChecksumRegionSpec(d, h, rank, node) == None
  {
    Unroll(h, rank, node, seen, cur);
    assert Children(h, rank, node)[|seen|] == cur;
  }

  /** `getChecksumRegionAtNode`: counts the children while each is a hollow dot. */
  method GetChecksumRegionAtNode(d: Detector, h: Hierarchy, ghost rank: seq<nat>, regionIndex: int) returns (region: Option<MarkerRegion>)
    requires Ranked(h, rank) && 0 <= regionIndex < |h.first|
    ensures region == ChecksumRegionSpec(d, h, rank, regionIndex)
    ensures region.Some? ==> region.value.index == regionIndex && region.value.value >= 1
  {
    var currentDotIndex := h.first[regionIndex];
    if currentDotIndex < 0 {
      return None;
    }
    var dotCount := 0;
    ghost var seen: seq<int> := [];
    while currentDotIndex >= 0
      invariant currentDotIndex < |h.first|
      invariant seen + Siblings(h, rank, currentDotIndex) == Children(h, rank, regionIndex)
      invariant dotCount == |seen| && HollowDots(d, h, seen)
      invariant currentDotIndex < 0 ==> seen != []
      decreases if currentDotIndex < 0 then 0 else rank[currentDotIndex] + 1
    {
      if IsValidHollowDot(d, h, currentDotIndex) {
        DotStep(d, h, rank, regionIndex, seen, currentDotIndex);
        dotCount := dotCount + 1;
        seen := seen + [currentDotIndex];
        currentDotIndex := h.next[currentDotIndex];
      } else {
        BadDot(d, h, rank, regionIndex, seen, currentDotIndex);
        return None;
      }
    }
    assert seen == Children(h, rank, regionIndex);
    return Some(MarkerRegion(regionIndex, dotCount));
  }

  /** How many regions a marker may hold: `maxRegions`, but the first region
      is always taken. */
  function Cap(d: Detector): int {
    if d.maxRegions < 1 then 1 else d.maxRegions
  }

  /** The regions among `children`, in sibling order, without the empty ones
      when those are ignored. */
  function Kept(d: Detector, children: seq<int>): seq<MarkerRegion> {
    if children == [] then []
    else
      var r := d.regionAt(children[|children| - 1]);
      Kept(d, children[..|children| - 1]) + (if r.Some? && !(d.ignoreEmptyRegions && r.value.value == 0) then [r.value] else [])
  }

  /** The children that are not regions. */
  function Others(d: Detector, children: seq<int>): (others: seq<int>)
    ensures forall x | x in others :: x in children
  {
    if children == [] then []
    else
      var init := children[..|children| - 1];
      var c := children[|children| - 1];
      Others(d, init) + (if d.regionAt(c).None? then [c] else [])
  }

  /** One more child: `Kept` and `Others` grow by at most that child. */
  lemma Step(d: Detector, seen: seq<int>, c: int)
    ensures var r := d.regionAt(c);
      if r.Some? && !(d.ignoreEmptyRegions && r.value.value == 0) then Kept(d, seen + [c]) == Kept(d, seen) + [r.value]
      else Kept(d, seen + [c]) == Kept(d, seen)
    ensures if d.regionAt(c).None? then Others(d, seen + [c]) == Others(d, seen) + [c] else Others(d, seen + [c]) == Others(d, seen)
  {
    assert (seen + [c])[..|seen|] == seen;
    assert Kept(d, seen) + [] == Kept(d, seen);
    assert Others(d, seen) + [] == Others(d, seen);
  }

  lemma {:induction false} KeptAppend(d: Detector, a: seq<int>, b: seq<int>)
    ensures Kept(d, a + b) == Kept(d, a) + Kept(d, b)
  {
    if b != [] {
      var init := b[..|b| - 1];
      assert (a + b)[..|a + b| - 1] == a + init;
      KeptAppend(d, a, init);
    } else {
      assert a + b == a;
    }
  }

  lemma {:induction false} OthersAppend(d: Detector, a: seq<int>, b: seq<int>)
    ensures Others(d, a + b) == Others(d, a) + Others(d, b)
  {
    if b != [] {
      var init := b[..|b| - 1];
      assert (a + b)[..|a + b| - 1] == a + init;
      OthersAppend(d, a, init);
    } else {
      assert a + b == a;
    }
  }

  /** What `createMarkerForNode` returns for `node`: a marker exactly when its
      children hold at least one and at most `Cap` regions (kept in sibling
      order), at most one other child, and that one a checksum region, and
      the superclass accepts the marker once `sortCode` has ordered it. */
  ghost function CreateMarkerSpec(d: Detector, h: Hierarchy, rank: seq<nat>, node: int): Option<Marker>
    requires Ranked(h, rank) && 0 <= node < |h.first|
  {
    var children := Children(h, rank, node);
    var regions := Kept(d, children);
    var others := Others(d, children);
    if regions == [] || |regions| > Cap(d) || |others| > 1 then None
    else if others != [] && (assert others[0] in children; ChecksumRegionSpec(d, h, rank, others[0]).None?) then None
    else
      var checksum := if others == [] then None else assert others[0] in children; ChecksumRegionSpec(d, h, rank, others[0]);
      var marker := d.sortCode(WithEmbeddedChecksum(node, regions, checksum));
      if d.isValidRegionList(marker) then Some(marker) else None
  }

  /** Where the walk of `createMarkerForNode` stands: `seen` are the children
      before `cur`, `regions` holds their kept regions (null while there are
      none) and `checksumRegion` the checksum region of the one other child
      among them, if there is one. */
  ghost predicate Walked(d: Detector, h: Hierarchy, rank: seq<nat>, node: int, seen: seq<int>, cur: int,
                         regions: Option<seq<MarkerRegion>>, checksumRegion: Option<MarkerRegion>)
    requires Ranked(h, rank) && 0 <= node < |h.first|
  {
    && cur < |h.first|
    && seen + Siblings(h, rank, cur) == Children(h, rank, node)
    && regions == (if Kept(d, seen) == [] then None else Some(Kept(d, seen)))
    && |Kept(d, seen)| <= Cap(d)
    && |Others(d, seen)| <= 1
    && (Others(d, seen) == [] ==> checksumRegion == None)
    && (Others(d, seen) != [] ==>
          0 <= Others(d, seen)[0] < |h.first| && checksumRegion.Some? && checksumRegion == ChecksumRegionSpec(d, h, rank, Others(d, seen)[0]))
  }

  /** The walk may stop with null as soon as the children seen so far hold
      too many regions or too many other children, or a first other child
      that is no checksum region: no later child undoes that. */
  lemma StopEarly(d: Detector, h: Hierarchy, rank: seq<nat>, node: int, seen: seq<int>, rest: seq<int>)
    requires Ranked(h, rank) && 0 <= node < |h.first|
    requires Children(h, rank, node) == seen + rest
    requires || |Kept(d, seen)| > Cap(d)
             || |Others(d, seen)| > 1
             || (|Others(d, seen)| == 1 && 0 <= Others(d, seen)[0] < |h.first| && ChecksumRegionSpec(d, h, rank, Others(d, seen)[0]).None?)
    ensures CreateMarkerSpec(d, h, rank, node) == None
  {
    KeptAppend(d, seen, rest);
    OthersAppend(d, seen, rest);
  }

  /** The children after `cur`. */
  lemma Unroll(h: Hierarchy, rank: seq<nat>, node: int, seen: seq<int>, cur: int)
    requires Ranked(h, rank) && 0 <= node < |h.first| && 0 <= cur < |h.first|
    requires seen + Siblings(h, rank, cur) == Children(h, rank, node)
    ensures (seen + [cur]) + Siblings(h, rank, h.next[cur]) == Children(h, rank, node)
  {
    assert Siblings(h, rank, cur) == [cur] + Siblings(h, rank, h.next[cur]);
  }

  /** An empty region that is ignored changes nothing but the position. */
  lemma SkipStep(d: Detector, h: Hierarchy, rank: seq<nat>, node: int, seen: seq<int>, cur: int,
                 regions: Option<seq<MarkerRegion>>, checksumRegion: Option<MarkerRegion>)
    requires Ranked(h, rank) && 0 <= node < |h.first| && 0 <= cur
    requires Walked(d, h, rank, node, seen, cur, regions, checksumRegion)
    requires d.regionAt(cur).Some? && d.ignoreEmptyRegions && d.regionAt(cur).value.value == 0
    ensures Walked(d, h, rank, node, seen + [cur], h.next[cur], regions, checksumRegion)
  {
    Unroll(h, rank, node, seen, cur);
    Step(d, seen, cur);
  }

  /** A region joins the list while the list has room. */
  lemma RegionStep(d: Detector, h: Hierarchy, rank: seq<nat>, node: int, seen: seq<int>, cur: int,
                   regions: Option<seq<MarkerRegion>>, checksumRegion: Option<MarkerRegion>)
    requires Ranked(h, rank) && 0 <= node < |h.first| && 0 <= cur
    requires Walked(d, h, rank, node, seen, cur, regions, checksumRegion)
    requires d.regionAt(cur).Some? && !(d.ignoreEmptyRegions && d.regionAt(cur).value.value == 0)
    requires regions.None? || |regions.value| < d.maxRegions
    ensures Walked(d, h, rank, node, seen + [cur], h.next[cur],
                   Some((if regions.None? then [] else regions.value) + [d.regionAt(cur).value]), checksumRegion)
  {
    Unroll(h, rank, node, seen, cur);
    Step(d, seen, cur);
  }

  /** A region that finds the list full ends the walk with null. */
  lemma OverflowStop(d: Detector, h: Hierarchy, rank: seq<nat>, node: int, seen: seq<int>, cur: int,
                     regions: Option<seq<MarkerRegion>>, checksumRegion: Option<MarkerRegion>)
    requires Ranked(h, rank) && 0 <= node < |h.first| && 0 <= cur
    requires Walked(d, h, rank, node, seen, cur, regions, checksumRegion)
    requires d.regionAt(cur).Some? && !(d.ignoreEmptyRegions && d.regionAt(cur).value.value == 0)
    requires regions.Some? && |regions.value| >= d.maxRegions
    ensures CreateMarkerSpec(d, h, rank, node) == None
  {
    Unroll(h, rank, node, seen, cur);
    Step(d, seen, cur);
    StopEarly(d, h, rank, node, seen + [cur], Siblings(h, rank, h.next[cur]));
  }

  /** The first child that is not a region must be a checksum region; if it
      is, the walk goes on holding it. */
  lemma ChecksumStep(d: Detector, h: Hierarchy, rank: seq<nat>, node: int, seen: seq<int>, cur: int,
                     regions: Option<seq<MarkerRegion>>)
    requires Ranked(h, rank) && 0 <= node < |h.first| && 0 <= cur < |h.first|
    requires Walked(d, h, rank, node, seen, cur, regions, None)
    requires d.regionAt(cur).None?
    ensures ChecksumRegionSpec(d, h, rank, cur).None? ==> CreateMarkerSpec(d, h, rank, node) == None
    ensures ChecksumRegionSpec(d, h, rank, cur).Some? ==>
              Walked(d, h, rank, node, seen + [cur], h.next[cur], regions, ChecksumRegionSpec(d, h, rank, cur))
  {
    Unroll(h, rank, node, seen, cur);
    Step(d, seen, cur);
    assert Others(d, seen + [cur]) == [cur];
    if ChecksumRegionSpec(d, h, rank, cur).None? {
      StopEarly(d, h, rank, node, seen + [cur], Siblings(h, rank, h.next[cur]));
    }
  }

  /** A second child that is not a region ends the walk with null. */
  lemma SecondOtherStop(d: Detector, h: Hierarchy, rank: seq<nat>, node: int, seen: seq<int>, cur: int,
                        regions: Option<seq<MarkerRegion>>, checksumRegion: Option<MarkerRegion>)
    requires Ranked(h, rank) && 0 <= node < |h.first| && 0 <= cur
    requires Walked(d, h, rank, node, seen, cur, regions, checksumRegion)
    requires d.regionAt(cur).None? && checksumRegion.Some?
    ensures CreateMarkerSpec(d, h, rank, node) == None
  {
    Unroll(h, rank, node, seen, cur);
    Step(d, seen, cur);
    assert |Others(d, seen + [cur])| == 2;
    StopEarly(d, h, rank, node, seen + [cur], Siblings(h, rank, h.next[cur]));
  }

  /** At the end of the children the walk has seen them all. */
  lemma WalkDone(d: Detector, h: Hierarchy, rank: seq<nat>, node: int, seen: seq<int>, cur: int,
                 regions: Option<seq<MarkerRegion>>, checksumRegion: Option<MarkerRegion>)
    requires Ranked(h, rank) && 0 <= node < |h.first| && cur < 0
    requires Walked(d, h, rank, node, seen, cur, regions, checksumRegion)
    ensures CreateMarkerSpec(d, h, rank, node) ==
      if regions.None? then None
      else
        var m := d.sortCode(WithEmbeddedChecksum(node, regions.value, checksumRegion));
        if d.isValidRegionList(m) then Some(m) else None
  {
    assert seen == Children(h, rank, node);
  }

  /** `createMarkerForNode`: one walk over the children of `nodeIndex`,
      returning null as soon as a region would overflow the list or a second
      non-region child (or a non-region child that is no checksum region)
      turns up. */
  method CreateMarkerForNode(d: Detector, h: Hierarchy, ghost rank: seq<nat>, nodeIndex: int) returns (marker: Option<Marker>)
    requires Ranked(h, rank) && 0 <= nodeIndex < |h.first|
    ensures marker == CreateMarkerSpec(d, h, rank, nodeIndex)
  {
    var regions: Option<seq<MarkerRegion>> := None;
    var checksumRegion: Option<MarkerRegion> := None;
    ghost var seen: seq<int> := [];
    var currentNodeIndex := h.first[nodeIndex];
    while currentNodeIndex >= 0
      invariant Walked(d, h, rank, nodeIndex, seen, currentNodeIndex, regions, checksumRegion)
      decreases if currentNodeIndex < 0 then 0 else rank[currentNodeIndex] + 1
    {
      ghost var before := regions;
      var region := d.regionAt(currentNodeIndex);
      if region.Some? {
        if d.ignoreEmptyRegions && region.value.value == 0 {
          SkipStep(d, h, rank, nodeIndex, seen, currentNodeIndex, regions, checksumRegion);
        } else {
          if regions == None {
            regions := Some([]);
          } else if |regions.value| >= d.maxRegions {
            OverflowStop(d, h, rank, nodeIndex, seen, currentNodeIndex, regions, checksumRegion);
            return None;
          }
          RegionStep(d, h, rank, nodeIndex, seen, currentNodeIndex, before, checksumRegion);
          regions := Some(regions.value + [region.value]);
        }
      } else if checksumRegion == None {
        ChecksumStep(d, h, rank, nodeIndex, seen, currentNodeIndex, regions);
        checksumRegion := GetChecksumRegionAtNode(d, h, rank, currentNodeIndex);
        if checksumRegion == None {
          return None;
        }
      } else {
        SecondOtherStop(d, h, rank, nodeIndex, seen, currentNodeIndex, regions, checksumRegion);
        return None;
      }
      seen := seen + [currentNodeIndex];
      currentNodeIndex := h.next[currentNodeIndex];
    }
    WalkDone(d, h, rank, nodeIndex, seen, currentNodeIndex, regions, checksumRegion);
    if regions.Some? {
      var m := d.sortCode(WithEmbeddedChecksum(nodeIndex, regions.value, checksumRegion));
      if d.isValidRegionList(m) {
        return Some(m);
      }
    }
    return None;
  }

  /** What `hasValidChecksum` decides: for a marker with a checksum region,
      whether the region's dot count is the reduced weighted sum of the
      transformed digits; for any other marker, the superclass's verdict. */
  function ChecksumHolds(d: Detector, marker: Marker): bool {
    match marker
    case WithEmbeddedChecksum(_, regions, Some(c)) => c.value == Reduction(TransformedWeightedSum(Values(regions)))
    case _ => d.superHasValidChecksum(marker)
  }

  /** Before position `i` the loop's weight counter is one past the previous
      weight; raising it past a multiple of 7 gives the weight of `i`. */
  lemma WeightCounter(i: nat, weight: int)
    requires weight == if i == 0 then 1 else Weight(i - 1) + 1
    ensures (if JRem(weight, 7) == 0 then weight + 1 else weight) == Weight(i)
  {
    if i > 0 {
      WeightsSkipMultiplesOf7(i - 1);
    }
  }

  /** The loop's running sum after one more digit. */
  lemma SumStep(vs: seq<int>, i: nat)
    requires i < |vs|
    ensures TransformedWeightedSum(vs[..i + 1]) == TransformedWeightedSum(vs[..i]) + Transform(vs[i]) * Weight(i)
  {
    assert vs[..i + 1][..i] == vs[..i];
  }

  /** `hasValidChecksum`. */
  method HasValidChecksum(d: Detector, marker: Marker) returns (valid: bool)
    ensures valid == ChecksumHolds(d, marker)
  {
    if marker.WithEmbeddedChecksum? && marker.checksumRegion.Some? {
      var weightedSum := 0;
      var weight := 1;
      ghost var vs := Values(marker.regions);
      var i := 0;
      while i < |marker.regions|
        invariant 0 <= i <= |marker.regions|
        invariant weight == if i == 0 then 1 else Weight(i - 1) + 1
        invariant weightedSum == TransformedWeightedSum(vs[..i])
      {
        var value := marker.regions[i].value;
        value := value + JDiv(value + JDiv(value, 7), 7);
        WeightCounter(i, weight);
        if JRem(weight, 7) == 0 {
          weight := weight + 1;
        }
        SumStep(vs, i);
        assert value == Transform(vs[i]) && weight == Weight(i);
        weightedSum := weightedSum + value * weight;
        weight := weight + 1;
        i := i + 1;
      }
      assert vs[..i] == vs;
      return marker.checksumRegion.value.value == JRem(weightedSum - 1, 7) + 1;
    }
    valid := d.superHasValidChecksum(marker);
  }

  /** A code whose regions are all empty never passes the embedded checksum:
      its weighted sum is 0, which reduces to 0, while a checksum region
      holds at least one dot. */
  lemma EmptyCodeFails(d: Detector, index: int, regions: seq<MarkerRegion>, c: MarkerRegion)
    requires c.value >= 1 && forall i | 0 <= i < |regions| :: regions[i].value == 0
    ensures !ChecksumHolds(d, WithEmbeddedChecksum(index, regions, Some(c)))
  {
    ZeroCodeReduction(Values(regions));
  }

  /** On markers with at most six regions worth 0 to 6 each (every marker
      under the default settings) and a positive weighted sum, this
      detector's checksum law and the embedded checksum of `Experience`
      agree. */
  lemma SmallMarkersAgreeWithExperience(vs: seq<int>, checksum: int)
    requires |vs| <= 6 && forall i | 0 <= i < |vs| :: 0 <= vs[i] <= 6
    requires ExperienceRules.WeightedSum(vs) >= 1
    ensures checksum == Reduction(TransformedWeightedSum(vs)) <==> ExperienceRules.HasValidEmbeddedChecksum(vs, checksum)
  {
    var t, w := TransformedWeightedSum(vs), ExperienceRules.WeightedSum(vs);
    assert t == w by { SmallCodesKeepWeightedSum(vs); }
    assert Reduction(t) == ExperienceRules.EmbeddedChecksumValue(w) by { ReductionAgrees(w); }
  }

}
