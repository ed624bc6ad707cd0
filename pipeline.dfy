/** `form_multiple_knapsack_groups`: group the original microservices; split those left
    over into base and peak components; group the base components in a second pass, keeping
    the ones that stay alone as singletons; and append every peak component at the end.
    Base components are listed under index `1000 + i`, peak components under `-i`. */
module Pipeline {
  import opened SeqUtil
  import opened Stats
  import opened Candidates
  import opened Greedy
  import opened GreedyProps
  import opened Splitter

  /** Offset that marks a base component in the index lists. */
  const BaseOffset: int := 1000

  /** The three parallel lists the grouping returns. */
  datatype Grouping = Grouping(groups: seq<seq<Series>>, indices: seq<seq<int>>, slotSums: seq<Series>)

  predicate Parallel(g: Grouping)
  {
    |g.indices| == |g.groups| && |g.slotSums| == |g.groups|
  }

  function Cat(a: Grouping, b: Grouping): Grouping
  {
    Grouping(a.groups + b.groups, a.indices + b.indices, a.slotSums + b.slotSums)
  }

  /** The accepted groups of a pass, as they are appended. */
  function OfCandidates(acc: seq<Candidate>): (r: Grouping)
    requires AllShaped(acc)
    ensures Parallel(r)
  {
    Grouping(GroupsOf(acc), IndicesOf(acc), SlotSumsOf(acc))
  }

  /** The peak components as single-member groups under negated indices, paired up as
      `zip` pairs them. */
  function PeakGroups(peaks: seq<Series>, peakIdx: seq<int>): (r: Grouping)
    ensures Parallel(r) && |r.groups| == Min2(|peaks|, |peakIdx|)
  {
    var m := Min2(|peaks|, |peakIdx|);
    Grouping(seq(m, k requires 0 <= k < m => [peaks[k]]),
             seq(m, k requires 0 <= k < m => [-peakIdx[k]]),
             seq(m, k requires 0 <= k < m => LoadSum([peaks[k]])))
  }

  function Min2(a: int, b: int): int { if a <= b then a else b }

  /** `[1000 + base_indices[idx] for idx in indices]` */
  function Encode(ix: seq<int>, baseIdx: seq<int>): (r: seq<int>)
    requires Within(ix, 0, |baseIdx|)
    ensures |r| == |ix|
  {
    seq(|ix|, k requires 0 <= k < |ix| => (assert ix[k] in ix; BaseOffset + baseIdx[ix[k]]))
  }

  predicate IndicesWithin(acc: seq<Candidate>, m: int)
  {
    forall k :: 0 <= k < |acc| ==> Within(acc[k].indices, 0, m)
  }

  /** The groups of base components, with their indices translated to the original
      microservices and offset by 1000. */
  function BaseGrouped(acc: seq<Candidate>, baseIdx: seq<int>): (r: Grouping)
    requires AllShaped(acc) && IndicesWithin(acc, |baseIdx|)
    ensures Parallel(r) && |r.groups| == |acc|
  {
    Grouping(GroupsOf(acc), seq(|acc|, k requires 0 <= k < |acc| => Encode(acc[k].indices, baseIdx)), SlotSumsOf(acc))
  }

  /** The base components left ungrouped, each as a group of its own. */
  function Ungrouped(bases: seq<Series>, baseIdx: seq<int>, avail: seq<int>): (r: Grouping)
    requires Within(avail, 0, |bases|) && |baseIdx| >= |bases|
    ensures Parallel(r) && |r.groups| == |avail|
  {
    Grouping(seq(|avail|, k requires 0 <= k < |avail| => (assert avail[k] in avail; [bases[avail[k]]])),
             seq(|avail|, k requires 0 <= k < |avail| => (assert avail[k] in avail; [BaseOffset + baseIdx[avail[k]]])),
             seq(|avail|, k requires 0 <= k < |avail| => (assert avail[k] in avail; LoadSum([bases[avail[k]]]))))
  }

  /** Every microservice in a group of its own (the fallback when nothing was formed). */
  function Singletons(series: seq<Series>): (r: Grouping)
    ensures Parallel(r) && |r.groups| == |series|
  {
    Grouping(seq(|series|, k requires 0 <= k < |series| => [series[k]]),
             seq(|series|, k requires 0 <= k < |series| => [k]),
             seq(|series|, k requires 0 <= k < |series| => LoadSum([series[k]])))
  }

  lemma RangeFresh(series: seq<Series>)
    requires WellFormed(series)
    ensures Fresh(series, Range(|series|), 2, [])
  {
    RangeDistinct(|series|);
    assert Flat([]) == [];
  }

  /** The grouping pass over all of `series` from size 2. */
  function Pass(series: seq<Series>, maxSize: int, threshold: real): (o: Outcome)
    requires WellFormed(series)
    ensures AllShaped(o.accepted) && IndicesWithin(o.accepted, |series|)
    ensures Within(o.remaining, 0, |series|) && Distinct(o.remaining)
    ensures o == Escalate(series, Range(|series|), 2, Stop(maxSize, |series|), threshold, [])
  {
    RangeFresh(series);
    PassFacts(series, Range(|series|), 2, Stop(maxSize, |series|), threshold, []);
    Escalate(series, Range(|series|), 2, Stop(maxSize, |series|), threshold, [])
  }

  lemma PassFacts(series: seq<Series>, avail: seq<int>, size: nat, stop: int, threshold: real, prior: seq<seq<int>>)
    requires Fresh(series, avail, size, prior)
    ensures var o := Escalate(series, avail, size, stop, threshold, prior);
      IndicesWithin(o.accepted, |series|) && Within(o.remaining, 0, |series|) && Distinct(o.remaining)
  {
    EscalateFacts(series, avail, size, stop, threshold, prior);
    var o := Escalate(series, avail, size, stop, threshold, prior);
    forall k | 0 <= k < |o.accepted| ensures Within(o.accepted[k].indices, 0, |series|) {
      assert o.accepted[k] in o.accepted;
    }
  }

  /** The second pass over the base components: their groups, then the ungrouped ones. */
  function BasePhase(bases: seq<Series>, baseIdx: seq<int>, maxSize: int, threshold: real): (r: Grouping)
    requires WellFormed(bases) && |baseIdx| >= |bases|
    ensures Parallel(r)
  {
    var o := Pass(bases, maxSize, threshold);
    Cat(BaseGrouped(o.accepted, baseIdx), Ungrouped(bases, baseIdx, o.remaining))
  }

  /** The split of the microservices the first pass left over. */
  function Leftover(series: seq<Series>, unassigned: seq<int>): (p: Parts)
    requires WellFormed(series) && Within(unassigned, 0, |series|)
    ensures p == SplitAll(series, unassigned)
    ensures WellFormed(p.bases) && p.baseIdx == unassigned && |p.bases| == |unassigned|
  {
    LeftoverShape(series, unassigned);
    SplitAll(series, unassigned)
  }

  lemma LeftoverShape(series: seq<Series>, unassigned: seq<int>)
    requires WellFormed(series) && Within(unassigned, 0, |series|)
    ensures var p := SplitAll(series, unassigned);
      WellFormed(p.bases) && p.baseIdx == unassigned && |p.bases| == |unassigned|
  {
    SplitAllBases(series, unassigned);
    var p := SplitAll(series, unassigned);
    forall k | 0 <= k < |p.bases| ensures |p.bases[k]| == |series[0]| > 0 {
      var x := unassigned[k];
      SplitReconstructs(series[x], DefaultThresholdStd);
      assert |p.bases[k]| == |series[x]|;
    }
  }

  /** What `form_multiple_knapsack_groups(series, max_group_size, stability_threshold)`
      returns. */
  function FormGroups(series: seq<Series>, maxSize: int, threshold: real): (r: Grouping)
    requires WellFormed(series)
  {
    var o := Pass(series, maxSize, threshold);
    var first := OfCandidates(o.accepted);
    if |o.remaining| == 0 then first
    else
      var parts := Leftover(series, o.remaining);
      Cat(MainGroups(series, first, parts.bases, parts.baseIdx, maxSize, threshold),
          PeakGroups(parts.peaks, parts.peakIdx))
  }

  /** The groups listed before the peak components, once the fallback is known never to be
      taken: the first pass, then the second pass over the base components of the leftovers. */
  function MainPart(series: seq<Series>, maxSize: int, threshold: real): (r: Grouping)
    requires WellFormed(series)
  {
    var o := Pass(series, maxSize, threshold);
    var first := OfCandidates(o.accepted);
    if |o.remaining| == 0 then first
    else
      var parts := Leftover(series, o.remaining);
      Cat(first, BasePhase(parts.bases, parts.baseIdx, maxSize, threshold))
  }

  /** The peak components, listed last. */
  function PeakPart(series: seq<Series>, maxSize: int, threshold: real): Grouping
    requires WellFormed(series)
  {
    var parts := Leftover(series, Pass(series, maxSize, threshold).remaining);
    PeakGroups(parts.peaks, parts.peakIdx)
  }

  /** A listing of `n` microservices of which the first pass left `left` over: every
      microservice exactly once, as `p` when the first pass grouped it and as `1000 + p` when
      it was left over. */
  ghost predicate Listed(n: int, left: seq<int>, ix: seq<int>)
  {
    Distinct(ix) &&
    (forall v :: v in ix <==> (0 <= v < n && v !in left) || (0 <= v - BaseOffset < n && v - BaseOffset in left)) &&
    (forall p :: 0 <= p < n ==> (p in ix <==> BaseOffset + p !in ix))
  }

  /** How the index lists of the result read, for `n` microservices of which the first pass
      left `left` over and `withPeak` have an extreme: the first `m` lists, joined, are
      `Listed`, and each later list is the single negated index of one entry of `withPeak`,
      in order. */
  ghost predicate Roles(n: int, left: seq<int>, withPeak: seq<int>, ixs: seq<seq<int>>, m: int)
  {
    0 <= m <= |ixs| && |ixs| == m + |withPeak| && Listed(n, left, Flat(ixs[..m])) &&
    (forall k :: 0 <= k < |withPeak| ==> ixs[m + k] == [-withPeak[k]])
  }

  /** The groups before the peak components: the first pass, then the second pass over the
      base components, or every microservice alone when that is still nothing. */
  function MainGroups(series: seq<Series>, first: Grouping, bases: seq<Series>, baseIdx: seq<int>,
                      maxSize: int, threshold: real): Grouping
    requires WellFormed(bases) && |baseIdx| >= |bases|
  {
    var grouped := if |bases| > 0 then Cat(first, BasePhase(bases, baseIdx, maxSize, threshold)) else first;
    if |grouped.groups| == 0 then Singletons(series) else grouped
  }

  // ---------------------------------------------------------------------------
  // The lists as the procedures fill them

  function Contents(out: GroupLists): Grouping
    reads out
  {
    Grouping(out.groups, out.indices, out.slotSums)
  }

  function Prefix(g: Grouping, k: int): Grouping
    requires Parallel(g) && 0 <= k <= |g.groups|
  {
    Grouping(g.groups[..k], g.indices[..k], g.slotSums[..k])
  }

  function Entry(g: Grouping, k: int): Grouping
    requires Parallel(g) && 0 <= k < |g.groups|
  {
    Grouping([g.groups[k]], [g.indices[k]], [g.slotSums[k]])
  }

  lemma PrefixSnoc(c0: Grouping, g: Grouping, k: int)
    requires Parallel(g) && 0 <= k < |g.groups|
    ensures Cat(Cat(c0, Prefix(g, k)), Entry(g, k)) == Cat(c0, Prefix(g, k + 1))
  {
    assert g.groups[..k + 1] == g.groups[..k] + [g.groups[k]];
    assert g.indices[..k + 1] == g.indices[..k] + [g.indices[k]];
    assert g.slotSums[..k + 1] == g.slotSums[..k] + [g.slotSums[k]];
  }

  lemma PrefixAll(c0: Grouping, g: Grouping)
    requires Parallel(g)
    ensures Cat(c0, Prefix(g, |g.groups|)) == Cat(c0, g)
  {
    assert g.groups[..|g.groups|] == g.groups;
    assert g.indices[..|g.groups|] == g.indices;
    assert g.slotSums[..|g.groups|] == g.slotSums;
  }

  lemma CatEmpty(a: Grouping)
    ensures Cat(a, Grouping([], [], [])) == a
  {
    assert a.groups + [] == a.groups && a.indices + [] == a.indices && a.slotSums + [] == a.slotSums;
  }

  lemma EmptyCat(a: Grouping)
    ensures Cat(Grouping([], [], []), a) == a
  {
    assert [] + a.groups == a.groups && [] + a.indices == a.indices && [] + a.slotSums == a.slotSums;
  }

  lemma CatAssoc(a: Grouping, b: Grouping, c: Grouping)
    ensures Cat(Cat(a, b), c) == Cat(a, Cat(b, c))
  {
    assert a.groups + b.groups + c.groups == a.groups + (b.groups + c.groups);
    assert a.indices + b.indices + c.indices == a.indices + (b.indices + c.indices);
    assert a.slotSums + b.slotSums + c.slotSums == a.slotSums + (b.slotSums + c.slotSums);
  }

  /** `process_peak_components`: each peak component becomes a group of its own, under the
      negated index of its microservice. */
  method ProcessPeakComponents(peakServices: seq<Series>, peakIdxOrig: seq<int>, out: GroupLists)
    modifies out
    ensures Contents(out) == Cat(old(Contents(out)), PeakGroups(peakServices, peakIdxOrig))
  {
    ghost var c0 := Contents(out);
    ghost var g := PeakGroups(peakServices, peakIdxOrig);
    var m := Min2(|peakServices|, |peakIdxOrig|);
    var k := 0;
    while k < m
      invariant 0 <= k <= m
      invariant Contents(out) == Cat(c0, Prefix(g, k))
    {
      var service := peakServices[k];
      var sums := CalculateLoadSum([service]);
      out.Append([service], [-peakIdxOrig[k]], sums);
      PrefixSnoc(c0, g, k);
      k := k + 1;
    }
    PrefixAll(c0, g);
  }

  /** `add_ungrouped_base_components`: each base component left over becomes a group of its
      own, under 1000 plus the index of its microservice. */
  method AddUngroupedBaseComponents(bases: seq<Series>, baseIdx: seq<int>, avail: seq<int>, out: GroupLists)
    requires Within(avail, 0, |bases|) && |baseIdx| >= |bases|
    modifies out
    ensures Contents(out) == Cat(old(Contents(out)), Ungrouped(bases, baseIdx, avail))
  {
    ghost var c0 := Contents(out);
    ghost var g := Ungrouped(bases, baseIdx, avail);
    var k := 0;
    while k < |avail|
      invariant 0 <= k <= |avail|
      invariant Contents(out) == Cat(c0, Prefix(g, k))
    {
      var idx := avail[k];
      assert idx in avail;
      var service := bases[idx];
      var sums := CalculateLoadSum([service]);
      out.Append([service], [BaseOffset + baseIdx[idx]], sums);
      PrefixSnoc(c0, g, k);
      k := k + 1;
    }
    PrefixAll(c0, g);
  }

  /** The first loop of `process_base_components`: append the groups of base components
      from the temporary lists, with their indices translated and offset. */
  method AppendBaseGroups(temp: GroupLists, baseIdx: seq<int>, out: GroupLists, ghost acc: seq<Candidate>)
    requires temp != out && AllShaped(acc) && IndicesWithin(acc, |baseIdx|)
    requires Contents(temp) == OfCandidates(acc)
    modifies out
    ensures Contents(out) == Cat(old(Contents(out)), BaseGrouped(acc, baseIdx))
  {
    ghost var c0 := Contents(out);
    ghost var g := BaseGrouped(acc, baseIdx);
    var k := 0;
    while k < |temp.groups|
      invariant 0 <= k <= |temp.groups| == |acc|
      invariant Contents(out) == Cat(c0, Prefix(g, k))
    {
      var ix := temp.indices[k];
      assert ix == acc[k].indices;
      var realIdx := seq(|ix|, j requires 0 <= j < |ix| => (assert ix[j] in ix; baseIdx[ix[j]]));
      var encoded := seq(|realIdx|, j requires 0 <= j < |realIdx| => BaseOffset + realIdx[j]);
      assert encoded == Encode(ix, baseIdx);
      out.Append(temp.groups[k], encoded, temp.slotSums[k]);
      PrefixSnoc(c0, g, k);
      k := k + 1;
    }
    PrefixAll(c0, g);
  }

  /** `process_base_components`: group the base components into fresh temporary lists,
      append those groups with their indices translated and offset, then append the
      ungrouped base components. */
  method ProcessBaseComponents(bases: seq<Series>, baseIdx: seq<int>, maxSize: int, threshold: real, out: GroupLists)
    requires WellFormed(bases) && |baseIdx| >= |bases|
    modifies out
    ensures Contents(out) == Cat(old(Contents(out)), BasePhase(bases, baseIdx, maxSize, threshold))
  {
    ghost var o := Pass(bases, maxSize, threshold);
    ghost var c0 := Contents(out);
    var temp := new GroupLists();
    RangeFresh(bases);
    var avail := GroupBaseComponents(bases, baseIdx, Range(|bases|), maxSize, threshold, temp);
    assert avail == o.remaining;
    assert Contents(temp) == OfCandidates(o.accepted);
    AppendBaseGroups(temp, baseIdx, out, o.accepted);
    AddUngroupedBaseComponents(bases, baseIdx, avail, out);
    CatAssoc(c0, BaseGrouped(o.accepted, baseIdx), Ungrouped(bases, baseIdx, o.remaining));
  }

  /** The peak lists as `zip` walks them. */
  function Zipped(g: Grouping): (r: Grouping)
    ensures Parallel(r)
  {
    var m := Min2(|g.groups|, Min2(|g.indices|, |g.slotSums|));
    Grouping(g.groups[..m], g.indices[..m], g.slotSums[..m])
  }

  /** `finalize_results`: append the peak components after everything else. */
  method FinalizeResults(final: GroupLists, peaks: GroupLists)
    requires final != peaks
    modifies final
    ensures Contents(final) == Cat(old(Contents(final)), Zipped(Contents(peaks)))
  {
    ghost var c0 := Contents(final);
    ghost var g := Zipped(Contents(peaks));
    if |peaks.groups| == 0 {
      CatEmpty(c0);
      return;
    }
    var m := Min2(|peaks.groups|, Min2(|peaks.indices|, |peaks.slotSums|));
    var k := 0;
    while k < m
      invariant 0 <= k <= m
      invariant Contents(final) == Cat(c0, Prefix(g, k))
    {
      final.Append(peaks.groups[k], peaks.indices[k], peaks.slotSums[k]);
      PrefixSnoc(c0, g, k);
      k := k + 1;
    }
    PrefixAll(c0, g);
  }

  lemma ZippedParallel(g: Grouping)
    requires Parallel(g)
    ensures Zipped(g) == g
  {
    assert g.groups[..|g.groups|] == g.groups;
    assert g.indices[..|g.groups|] == g.indices;
    assert g.slotSums[..|g.groups|] == g.slotSums;
  }

  /** `FormGroups` when the first pass leaves microservices over. */
  lemma FormGroupsLeftover(series: seq<Series>, maxSize: int, threshold: real)
    requires WellFormed(series)
    requires |Pass(series, maxSize, threshold).remaining| > 0
    ensures var o := Pass(series, maxSize, threshold);
      var parts := Leftover(series, o.remaining);
      FormGroups(series, maxSize, threshold) ==
        Cat(MainGroups(series, OfCandidates(o.accepted), parts.bases, parts.baseIdx, maxSize, threshold),
            PeakGroups(parts.peaks, parts.peakIdx))
  {
  }

  /** The part of `form_multiple_knapsack_groups` after the first pass, when microservices
      are left over: split them, keep their peak components aside, group their base
      components, and fall back to singletons when no group exists. */
  method GroupLeftover(series: seq<Series>, avail: seq<int>, maxSize: int, threshold: real,
                       final: GroupLists, peakLists: GroupLists, ghost first: Grouping)
    requires WellFormed(series) && Within(avail, 0, |series|) && final != peakLists
    requires Contents(final) == first && Contents(peakLists) == Grouping([], [], [])
    modifies final, peakLists
    ensures var parts := Leftover(series, avail);
      Contents(final) == MainGroups(series, first, parts.bases, parts.baseIdx, maxSize, threshold) &&
      Contents(peakLists) == PeakGroups(parts.peaks, parts.peakIdx)
  {
    var bases, baseIdx, peaks, peakIdx := ProcessUnassignedMicroservices(avail, series);
    ghost var parts := Leftover(series, avail);
    assert Parts(bases, baseIdx, peaks, peakIdx) == parts;
    ProcessPeakComponents(peaks, peakIdx, peakLists);
    EmptyCat(PeakGroups(peaks, peakIdx));
    GroupBases(series, bases, baseIdx, maxSize, threshold, final);
  }

  /** The second pass of `form_multiple_knapsack_groups` and its fallback. */
  method GroupBases(series: seq<Series>, bases: seq<Series>, baseIdx: seq<int>, maxSize: int, threshold: real,
                    final: GroupLists)
    requires WellFormed(bases) && |baseIdx| >= |bases|
    modifies final
    ensures Contents(final) == MainGroups(series, old(Contents(final)), bases, baseIdx, maxSize, threshold)
  {
    if |bases| > 0 {
      ProcessBaseComponents(bases, baseIdx, maxSize, threshold, final);
    }
    if |final.groups| == 0 {
      var fallback := Singletons(series);
      final.groups, final.indices, final.slotSums := fallback.groups, fallback.indices, fallback.slotSums;
    }
  }
}

/** What the grouping promises: the fallback is never taken, every microservice ends up in
    exactly one group of the first pass or as a base component of the second, every group
    of two or more in the result meets the threshold, peak components exist exactly for leftovers with an extreme,
    and every slot-sum list is the load sum of its group. */
module PipelineProps {
  import opened SeqUtil
  import opened Stats
  import opened Candidates
  import opened Greedy
  import opened GreedyProps
  import opened Splitter
  import opened Pipeline

  /** A pass partitions the indices `0 .. |series| - 1` into its groups and what it leaves,
      and every group it forms has 2 to `max_group_size` members and a CV below the threshold. */
  lemma PassPartition(series: seq<Series>, maxSize: int, threshold: real)
    requires WellFormed(series)
    ensures var o := Pass(series, maxSize, threshold);
      var covered := Flat(IndicesOf(o.accepted)) + o.remaining;
      Distinct(covered) && (forall p :: p in covered <==> 0 <= p < |series|) &&
      (forall x :: x in o.accepted ==> GoodGroup(series, x, threshold, 2, Stop(maxSize, |series|))) &&
      SizesAscend(o.accepted)
  {
    var n := |series|;
    var o := Pass(series, maxSize, threshold);
    RangeFresh(series);
    RangeDistinct(n);
    EscalateFacts(series, Range(n), 2, Stop(maxSize, n), threshold, []);
    var m := Members(IndicesOf(o.accepted));
    var f := Flat(IndicesOf(o.accepted));
    assert o.remaining == Without(Range(n), m);
    DistinctAppend(f, o.remaining);
    forall p ensures p in f + o.remaining <==> 0 <= p < n {
      if p in f {
        assert p in m;
      }
    }
  }

  /** Group sizes of a pass stay within 2 .. `max_group_size`. */
  lemma StopBound(maxSize: int, n: nat, size: int)
    requires 2 <= size < Stop(maxSize, n)
    ensures size <= maxSize && size <= n
  {
  }

  /** `Encode` of a concatenation. */
  lemma EncodeAppend(a: seq<int>, b: seq<int>, baseIdx: seq<int>)
    requires Within(a, 0, |baseIdx|) && Within(b, 0, |baseIdx|)
    ensures Within(a + b, 0, |baseIdx|)
    ensures Encode(a + b, baseIdx) == Encode(a, baseIdx) + Encode(b, baseIdx)
  {
    var ab := a + b;
    forall x | x in ab ensures 0 <= x < |baseIdx| {
      if x !in a {
        assert x in b;
      }
    }
    var l, r := Encode(ab, baseIdx), Encode(a, baseIdx) + Encode(b, baseIdx);
    forall k | 0 <= k < |ab| ensures l[k] == r[k] {
      if k >= |a| {
        assert ab[k] == b[k - |a|];
      }
    }
  }

  /** Translated to microservices and offset, the base components are distinct when the
      positions and the microservice indices are, and they are `1000 + i` for exactly the
      microservices `i` behind the positions. */
  lemma EncodeFacts(positions: seq<int>, baseIdx: seq<int>)
    requires Within(positions, 0, |baseIdx|) && Distinct(positions) && Distinct(baseIdx)
    requires forall p :: p in positions <==> 0 <= p < |baseIdx|
    ensures Distinct(Encode(positions, baseIdx))
    ensures forall v :: v in Encode(positions, baseIdx) <==> v - BaseOffset in baseIdx
  {
    var e := Encode(positions, baseIdx);
    forall i, j | 0 <= i < j < |e| ensures e[i] != e[j] {
      assert positions[i] in positions && positions[j] in positions;
    }
    forall v ensures v in e <==> v - BaseOffset in baseIdx {
      if v - BaseOffset in baseIdx {
        var q :| 0 <= q < |baseIdx| && baseIdx[q] == v - BaseOffset;
        assert q in positions;
        var j :| 0 <= j < |positions| && positions[j] == q;
        assert e[j] == v;
      }
      if v in e {
        var j :| 0 <= j < |e| && e[j] == v;
        assert positions[j] in positions;
      }
    }
  }

  lemma FlatIndicesWithin(acc: seq<Candidate>, m: int)
    requires IndicesWithin(acc, m)
    ensures Within(Flat(IndicesOf(acc)), 0, m)
  {
    forall x | x in Flat(IndicesOf(acc)) ensures 0 <= x < m {
      var k := FlatMemberInv(IndicesOf(acc), x);
    }
  }

  /** The index lists of the grouped base components, joined, translate the joined
      positions of the groups. */
  lemma {:induction false} FlatBaseGrouped(acc: seq<Candidate>, baseIdx: seq<int>)
    requires AllShaped(acc) && IndicesWithin(acc, |baseIdx|)
    ensures Within(Flat(IndicesOf(acc)), 0, |baseIdx|)
    ensures Flat(BaseGrouped(acc, baseIdx).indices) == Encode(Flat(IndicesOf(acc)), baseIdx)
    decreases |acc|
  {
    FlatIndicesWithin(acc, |baseIdx|);
    if |acc| > 0 {
      var n := |acc| - 1;
      var pre := acc[..n];
      assert AllShaped(pre) && IndicesWithin(pre, |baseIdx|);
      FlatBaseGrouped(pre, baseIdx);
      var ix := BaseGrouped(acc, baseIdx).indices;
      assert ix[..n] == BaseGrouped(pre, baseIdx).indices;
      assert IndicesOf(acc)[..n] == IndicesOf(pre);
      EncodeAppend(Flat(IndicesOf(pre)), acc[n].indices, baseIdx);
    }
  }

  /** The index lists of the ungrouped base components, joined, translate their positions. */
  lemma {:induction false} FlatUngrouped(bases: seq<Series>, baseIdx: seq<int>, avail: seq<int>)
    requires Within(avail, 0, |bases|) && |baseIdx| >= |bases|
    ensures Within(avail, 0, |baseIdx|)
    ensures Flat(Ungrouped(bases, baseIdx, avail).indices) == Encode(avail, baseIdx)
    decreases |avail|
  {
    if |avail| > 0 {
      var n := |avail| - 1;
      var pre := avail[..n];
      assert forall x :: x in pre ==> x in avail;
      FlatUngrouped(bases, baseIdx, pre);
      var ix := Ungrouped(bases, baseIdx, avail).indices;
      assert ix[..n] == Ungrouped(bases, baseIdx, pre).indices;
      assert avail == pre + [avail[n]];
      assert avail[n] in avail;
      EncodeAppend(pre, [avail[n]], baseIdx);
    }
  }

  /** Every base component of the second pass is listed exactly once, as `1000 + i` for its
      microservice `i`, whether it was grouped or left alone. */
  lemma BasePhasePartition(bases: seq<Series>, baseIdx: seq<int>, maxSize: int, threshold: real)
    requires WellFormed(bases) && |baseIdx| == |bases| && Distinct(baseIdx)
    ensures var ix := Flat(BasePhase(bases, baseIdx, maxSize, threshold).indices);
      Distinct(ix) && forall v :: v in ix <==> v - BaseOffset in baseIdx
  {
    var o := Pass(bases, maxSize, threshold);
    PassPartition(bases, maxSize, threshold);
    FlatBaseGrouped(o.accepted, baseIdx);
    FlatUngrouped(bases, baseIdx, o.remaining);
    var g := BaseGrouped(o.accepted, baseIdx);
    var u := Ungrouped(bases, baseIdx, o.remaining);
    FlatAppend(g.indices, u.indices);
    EncodeAppend(Flat(IndicesOf(o.accepted)), o.remaining, baseIdx);
    EncodeFacts(Flat(IndicesOf(o.accepted)) + o.remaining, baseIdx);
  }

  /** The second pass always lists at least one group when there are base components. */
  lemma BasePhaseNonEmpty(bases: seq<Series>, baseIdx: seq<int>, maxSize: int, threshold: real)
    requires WellFormed(bases) && |baseIdx| >= |bases| && |bases| > 0
    ensures |BasePhase(bases, baseIdx, maxSize, threshold).groups| > 0
  {
    var o := Pass(bases, maxSize, threshold);
    PassPartition(bases, maxSize, threshold);
    assert 0 in Flat(IndicesOf(o.accepted)) + o.remaining;
    if |o.accepted| == 0 {
      assert Flat(IndicesOf(o.accepted)) == [];
    }
  }

  /** The singleton fallback of `form_multiple_knapsack_groups` is never taken: with no
      leftovers the first pass is the answer, and otherwise the answer is the first pass,
      then the second pass over the base components, then the peak components. */
  lemma FallbackUnreachable(series: seq<Series>, maxSize: int, threshold: real)
    requires WellFormed(series)
    ensures var o := Pass(series, maxSize, threshold);
      var first := OfCandidates(o.accepted);
      FormGroups(series, maxSize, threshold) ==
        if |o.remaining| == 0 then first
        else
          var parts := Leftover(series, o.remaining);
          Cat(Cat(first, BasePhase(parts.bases, parts.baseIdx, maxSize, threshold)),
              PeakGroups(parts.peaks, parts.peakIdx))
  {
    var o := Pass(series, maxSize, threshold);
    if |o.remaining| > 0 {
      var parts := Leftover(series, o.remaining);
      BasePhaseNonEmpty(parts.bases, parts.baseIdx, maxSize, threshold);
    }
  }

  /** What `GoodGroup` with the bounds of a pass says about one group. */
  lemma GoodBounds(series: seq<Series>, x: Candidate, threshold: real, maxSize: int)
    requires GoodGroup(series, x, threshold, 2, Stop(maxSize, |series|))
    ensures 2 <= |x.indices| <= maxSize && Distinct(x.indices) && Within(x.indices, 0, |series|)
    ensures x.group == Pick(series, x.indices) && Shaped(x.group) && |x.group[0]| > 0
    ensures Below(Stability(x.group), threshold)
  {
    StopBound(maxSize, |series|, |x.indices|);
  }

  /** Every group a pass forms has 2 to `max_group_size` distinct members, holds their loads
      and has a CV below the threshold; no index is in two groups, and an index is grouped
      exactly when the pass does not leave it over. */
  lemma PassGroups(series: seq<Series>, maxSize: int, threshold: real)
    requires WellFormed(series)
    ensures var o := Pass(series, maxSize, threshold);
      var first := OfCandidates(o.accepted);
      Distinct(Flat(first.indices)) &&
      (forall p :: 0 <= p < |series| ==> (p in Flat(first.indices) <==> p !in o.remaining)) &&
      forall k :: 0 <= k < |first.groups| ==>
        Distinct(first.indices[k]) && 2 <= |first.indices[k]| <= maxSize &&
        Within(first.indices[k], 0, |series|) &&
        first.groups[k] == Pick(series, first.indices[k]) &&
        Shaped(first.groups[k]) && |first.groups[k][0]| > 0 && Below(Stability(first.groups[k]), threshold)
  {
    var o := Pass(series, maxSize, threshold);
    var acc := o.accepted;
    PassPartition(series, maxSize, threshold);
    DistinctAppend(Flat(IndicesOf(acc)), o.remaining);
    forall k | 0 <= k < |acc|
      ensures Distinct(acc[k].indices) && 2 <= |acc[k].indices| <= maxSize &&
        Within(acc[k].indices, 0, |series|) &&
        acc[k].group == Pick(series, acc[k].indices) &&
        Shaped(acc[k].group) && |acc[k].group[0]| > 0 && Below(Stability(acc[k].group), threshold)
    {
      assert acc[k] in acc;
      GoodBounds(series, acc[k], threshold, maxSize);
    }
    forall p | 0 <= p < |series| ensures p in Flat(IndicesOf(acc)) <==> p !in o.remaining {
      assert p in Flat(IndicesOf(acc)) + o.remaining;
    }
  }

  /** The peak components are listed only for leftover microservices whose load has an
      extreme, each alone, under its negated index, holding the part above the cap; with
      `Splitter.SplitAllPeaks`, every such microservice is listed. */
  lemma PeakComponents(series: seq<Series>, unassigned: seq<int>, p: Parts, g: Grouping)
    requires WellFormed(series) && Within(unassigned, 0, |series|)
    requires p == SplitAll(series, unassigned) && g == PeakGroups(p.peaks, p.peakIdx)
    ensures |g.groups| == |p.peakIdx|
    ensures forall k :: 0 <= k < |p.peakIdx| ==>
      p.peakIdx[k] in unassigned && HasExtreme(series[p.peakIdx[k]], DefaultThresholdStd) &&
      g.indices[k] == [-p.peakIdx[k]] && g.groups[k] == [p.peaks[k]]
  {
    PeakIndices(series, unassigned);
    ExtremeMembers(series, unassigned, p.peakIdx);
    PeakGroupsShape(p.peaks, p.peakIdx);
  }

  lemma ExtremeMembers(series: seq<Series>, unassigned: seq<int>, idx: seq<int>)
    requires Within(unassigned, 0, |series|) && idx == WithExtreme(series, unassigned)
    ensures forall k :: 0 <= k < |idx| ==>
      idx[k] in unassigned && 0 <= idx[k] < |series| && HasExtreme(series[idx[k]], DefaultThresholdStd)
  {
    WithExtremeExact(series, unassigned);
    forall k | 0 <= k < |idx|
      ensures idx[k] in unassigned && 0 <= idx[k] < |series| && HasExtreme(series[idx[k]], DefaultThresholdStd)
    {
      var x := idx[k];
      assert x in WithExtreme(series, unassigned);
      assert x in unassigned;
      assert HasExtreme(series[x], DefaultThresholdStd);
    }
  }

  lemma PeakGroupsShape(peaks: seq<Series>, peakIdx: seq<int>)
    requires |peaks| == |peakIdx|
    ensures var g := PeakGroups(peaks, peakIdx);
      |g.groups| == |peakIdx| &&
      forall k :: 0 <= k < |peakIdx| ==> g.indices[k] == [-peakIdx[k]] && g.groups[k] == [peaks[k]]
  {
  }

  /** Keeping the leftovers with an extreme keeps them distinct. */
  lemma {:induction false} WithExtremeDistinct(series: seq<Series>, unassigned: seq<int>)
    requires Within(unassigned, 0, |series|) && Distinct(unassigned)
    ensures Distinct(WithExtreme(series, unassigned))
    decreases |unassigned|
  {
    if |unassigned| > 0 {
      var n := |unassigned| - 1;
      var pre := unassigned[..n];
      var x := unassigned[n];
      assert forall y :: y in pre ==> y in unassigned;
      WithExtremeDistinct(series, pre);
      WithExtremeExact(series, pre);
      forall j | 0 <= j < n ensures pre[j] != x {
        assert pre[j] == unassigned[j];
      }
      DistinctAppend(WithExtreme(series, pre), [x]);
    }
  }

  /** With the fallback out of the way, the result is the groups of the two passes followed
      by the peak components. */
  lemma {:induction false} FormGroupsParts(series: seq<Series>, maxSize: int, threshold: real)
    requires WellFormed(series)
    ensures FormGroups(series, maxSize, threshold) ==
      Cat(MainPart(series, maxSize, threshold), PeakPart(series, maxSize, threshold))
  {
    FallbackUnreachable(series, maxSize, threshold);
    var o := Pass(series, maxSize, threshold);
    if |o.remaining| == 0 {
      PeakIndices(series, o.remaining);
      assert PeakPart(series, maxSize, threshold) == Grouping([], [], []);
      CatEmpty(OfCandidates(o.accepted));
    }
  }

  /** The joined index lists of a pass list exactly the microservices it does not leave
      over, each once. */
  lemma {:induction false} FirstFlat(series: seq<Series>, maxSize: int, threshold: real, o: Outcome, f: seq<int>)
    requires WellFormed(series) && o == Pass(series, maxSize, threshold) && f == Flat(IndicesOf(o.accepted))
    ensures Distinct(f) && forall v :: v in f <==> 0 <= v < |series| && v !in o.remaining
  {
    PassPartition(series, maxSize, threshold);
    DistinctAppend(f, o.remaining);
    assert forall v :: v in f + o.remaining <==> v in f || v in o.remaining;
  }

  /** Joining the first pass, which lists in-range microservices as themselves, and the
      second, which lists the leftovers as `1000 + p`, lists each microservice once. */
  lemma {:induction false} JoinListed(n: int, left: seq<int>, f: seq<int>, b: seq<int>)
    requires n <= BaseOffset && Within(left, 0, n)
    requires Distinct(f) && forall v :: v in f <==> 0 <= v < n && v !in left
    requires Distinct(b) && forall v :: v in b <==> v - BaseOffset in left
    ensures Listed(n, left, f + b)
  {
    DistinctAppend(f, b);
  }

  /** A first pass that leaves nothing over lists each microservice once, as itself. */
  lemma {:induction false} FirstListed(n: int, left: seq<int>, f: seq<int>)
    requires n <= BaseOffset && |left| == 0
    requires Distinct(f) && forall v :: v in f <==> 0 <= v < n && v !in left
    ensures Listed(n, left, f)
  {
  }

  /** Before the peak components, for at most 1000 microservices, every microservice is
      listed exactly once: as itself when the first pass grouped it, as `1000 + p` when it
      was left over and went through the second pass. */
  lemma {:induction false} MainRoles(series: seq<Series>, maxSize: int, threshold: real, o: Outcome, main: Grouping)
    requires WellFormed(series) && |series| <= BaseOffset
    requires o == Pass(series, maxSize, threshold) && main == MainPart(series, maxSize, threshold)
    ensures Listed(|series|, o.remaining, Flat(main.indices))
  {
    var first := OfCandidates(o.accepted);
    var f := Flat(first.indices);
    FirstFlat(series, maxSize, threshold, o, f);
    if |o.remaining| == 0 {
      FirstListed(|series|, o.remaining, f);
    } else {
      var parts := Leftover(series, o.remaining);
      var bp := BasePhase(parts.bases, parts.baseIdx, maxSize, threshold);
      assert main == Cat(first, bp);
      BasePhasePartition(parts.bases, parts.baseIdx, maxSize, threshold);
      FlatAppend(first.indices, bp.indices);
      JoinListed(|series|, o.remaining, f, Flat(bp.indices));
    }
  }

  /** After them come the peak components: one singleton `[-p]` per leftover `p` whose load
      has an extreme, in the order of the leftovers, each leftover at most once. */
  lemma {:induction false} PeakRoles(series: seq<Series>, maxSize: int, threshold: real, left: seq<int>, w: seq<int>, pk: Grouping)
    requires WellFormed(series) && left == Pass(series, maxSize, threshold).remaining
    requires Within(left, 0, |series|) && w == WithExtreme(series, left)
    requires pk == PeakPart(series, maxSize, threshold)
    ensures |pk.indices| == |w| && forall k :: 0 <= k < |w| ==> pk.indices[k] == [-w[k]]
    ensures Distinct(w) && forall p :: p in w <==> p in left && HasExtreme(series[p], DefaultThresholdStd)
  {
    var parts := Leftover(series, left);
    PeakIndices(series, left);
    PeakShape(parts.peaks, parts.peakIdx, w, pk);
    WithExtremeExact(series, left);
    WithExtremeDistinct(series, left);
  }

  lemma PeakShape(peaks: seq<Series>, peakIdx: seq<int>, w: seq<int>, pk: Grouping)
    requires |peaks| == |peakIdx| && peakIdx == w && pk == PeakGroups(peaks, peakIdx)
    ensures |pk.indices| == |w| && forall k :: 0 <= k < |w| ==> pk.indices[k] == [-w[k]]
  {
  }

  /** A listing followed by one negated singleton per entry of `withPeak` reads as `Roles`. */
  lemma {:induction false} RolesOfCat(n: int, left: seq<int>, withPeak: seq<int>, a: seq<seq<int>>, b: seq<seq<int>>)
    requires Listed(n, left, Flat(a))
    requires |b| == |withPeak| && forall k :: 0 <= k < |withPeak| ==> b[k] == [-withPeak[k]]
    ensures Roles(n, left, withPeak, a + b, |a|)
  {
    assert (a + b)[..|a|] == a;
    forall k | 0 <= k < |withPeak| ensures (a + b)[|a| + k] == [-withPeak[k]] {
      assert (a + b)[|a| + k] == b[k];
    }
  }

  /** The role partition of the whole result, for at most 1000 microservices (at 1001 the
      original index 1000 and the base component of microservice 0 are both 1000). */
  lemma {:induction false} RolePartition(series: seq<Series>, maxSize: int, threshold: real)
    requires WellFormed(series) && |series| <= BaseOffset
    ensures var left := Pass(series, maxSize, threshold).remaining;
      var w := WithExtreme(series, left);
      Roles(|series|, left, w, FormGroups(series, maxSize, threshold).indices, |MainPart(series, maxSize, threshold).indices|) &&
      Distinct(w) && forall p :: p in w <==> p in left && HasExtreme(series[p], DefaultThresholdStd)
  {
    var o := Pass(series, maxSize, threshold);
    var main := MainPart(series, maxSize, threshold);
    var r := FormGroups(series, maxSize, threshold);
    FormGroupsParts(series, maxSize, threshold);
    MainRoles(series, maxSize, threshold, o, main);
    var w := WithExtreme(series, o.remaining);
    var pk := PeakPart(series, maxSize, threshold);
    PeakRoles(series, maxSize, threshold, o.remaining, w, pk);
    assert r.indices == main.indices + pk.indices;
    RolesOfCat(|series|, o.remaining, w, main.indices, pk.indices);
  }

  /** Every slot-sum list is the load sum of the group beside it. */
  predicate Consistent(g: Grouping)
  {
    Parallel(g) &&
    forall k :: 0 <= k < |g.groups| ==> Shaped(g.groups[k]) && g.slotSums[k] == LoadSum(g.groups[k])
  }

  lemma CatConsistent(a: Grouping, b: Grouping)
    requires Consistent(a) && Consistent(b)
    ensures Consistent(Cat(a, b))
  {
    var c := Cat(a, b);
    forall k | 0 <= k < |c.groups| ensures Shaped(c.groups[k]) && c.slotSums[k] == LoadSum(c.groups[k]) {
      if k >= |a.groups| {
        assert c.groups[k] == b.groups[k - |a.groups|];
      }
    }
  }

  lemma UngroupedConsistent(bases: seq<Series>, baseIdx: seq<int>, avail: seq<int>)
    requires Within(avail, 0, |bases|) && |baseIdx| >= |bases|
    ensures Consistent(Ungrouped(bases, baseIdx, avail))
  {
    var u := Ungrouped(bases, baseIdx, avail);
    forall k | 0 <= k < |u.groups| ensures Shaped(u.groups[k]) {
      assert avail[k] in avail;
      assert u.groups[k] == [bases[avail[k]]];
    }
  }

  lemma PeakConsistent(peaks: seq<Series>, peakIdx: seq<int>)
    ensures Consistent(PeakGroups(peaks, peakIdx))
  {
    var g := PeakGroups(peaks, peakIdx);
    forall k | 0 <= k < |g.groups| ensures Shaped(g.groups[k]) {
      assert g.groups[k] == [peaks[k]];
    }
  }

  lemma PassConsistent(series: seq<Series>, baseIdx: seq<int>, maxSize: int, threshold: real)
    requires WellFormed(series) && |baseIdx| >= |series|
    ensures Consistent(OfCandidates(Pass(series, maxSize, threshold).accepted))
    ensures Consistent(BasePhase(series, baseIdx, maxSize, threshold))
  {
    var o := Pass(series, maxSize, threshold);
    UngroupedConsistent(series, baseIdx, o.remaining);
    CatConsistent(BaseGrouped(o.accepted, baseIdx), Ungrouped(series, baseIdx, o.remaining));
  }

  lemma SingletonsConsistent(series: seq<Series>)
    ensures Consistent(Singletons(series))
  {
    var g := Singletons(series);
    forall k | 0 <= k < |g.groups| ensures Shaped(g.groups[k]) {
      assert g.groups[k] == [series[k]];
    }
  }

  lemma MainConsistent(series: seq<Series>, first: Grouping, bases: seq<Series>, baseIdx: seq<int>,
                       maxSize: int, threshold: real)
    requires WellFormed(bases) && |baseIdx| >= |bases| && Consistent(first)
    ensures Consistent(MainGroups(series, first, bases, baseIdx, maxSize, threshold))
  {
    PassConsistent(bases, baseIdx, maxSize, threshold);
    CatConsistent(first, BasePhase(bases, baseIdx, maxSize, threshold));
    SingletonsConsistent(series);
  }

  /** Whatever path `form_multiple_knapsack_groups` takes, each slot-sum list it returns is
      the per-slot load sum of the group at the same position. */
  lemma SlotSumsMatchGroups(series: seq<Series>, maxSize: int, threshold: real)
    requires WellFormed(series)
    ensures Consistent(FormGroups(series, maxSize, threshold))
  {
    var o := Pass(series, maxSize, threshold);
    ghost var first := OfCandidates(o.accepted);
    PassConsistent(series, Range(|series|), maxSize, threshold);
    if |o.remaining| > 0 {
      var p := Leftover(series, o.remaining);
      MainConsistent(series, first, p.bases, p.baseIdx, maxSize, threshold);
      PeakConsistent(p.peaks, p.peakIdx);
      CatConsistent(MainGroups(series, first, p.bases, p.baseIdx, maxSize, threshold), PeakGroups(p.peaks, p.peakIdx));
    }
  }

  /** Every group of two or more members is a run of equally long loads whose per-slot sum
      has a CV below the threshold; every other group is a single series. */
  predicate MeetsThreshold(g: Grouping, threshold: real)
  {
    |g.indices| == |g.groups| &&
    forall k :: 0 <= k < |g.groups| ==>
      |g.groups[k]| == |g.indices[k]| >= 1 &&
      (|g.indices[k]| >= 2 ==>
        Shaped(g.groups[k]) && |g.groups[k][0]| > 0 && Below(Stability(g.groups[k]), threshold))
  }

  /** `v` names a microservice (below 1000) or the base component of one (from 1000 on). */
  predicate Names(n: int, v: int)
  {
    (0 <= v < n && v < BaseOffset) || 0 <= v - BaseOffset < n
  }

  /** The series an index of the groups before the peak components stands for. */
  function Member(series: seq<Series>, v: int): Series
    requires Names(|series|, v)
  {
    if v < BaseOffset then series[v] else Split(series[v - BaseOffset], DefaultThresholdStd).0
  }

  /** The first `m` groups hold exactly the series their indices name. */
  predicate Denotes(series: seq<Series>, g: Grouping, m: int)
  {
    0 <= m <= |g.groups| <= |g.indices| &&
    forall k :: 0 <= k < m ==>
      |g.groups[k]| == |g.indices[k]| &&
      forall j :: 0 <= j < |g.indices[k]| ==>
        Names(|series|, g.indices[k][j]) && g.groups[k][j] == Member(series, g.indices[k][j])
  }

  lemma CatMeets(a: Grouping, b: Grouping, threshold: real)
    requires MeetsThreshold(a, threshold) && MeetsThreshold(b, threshold)
    ensures MeetsThreshold(Cat(a, b), threshold)
  {
    var c := Cat(a, b);
    forall k | |a.groups| <= k < |c.groups|
      ensures c.groups[k] == b.groups[k - |a.groups|] && c.indices[k] == b.indices[k - |a.groups|]
    {
    }
  }

  lemma CatDenotes(series: seq<Series>, a: Grouping, b: Grouping)
    requires Parallel(a) && Parallel(b)
    requires Denotes(series, a, |a.groups|) && Denotes(series, b, |b.groups|)
    ensures Denotes(series, Cat(a, b), |a.groups| + |b.groups|)
  {
    var c := Cat(a, b);
    forall k | |a.groups| <= k < |c.groups|
      ensures c.groups[k] == b.groups[k - |a.groups|] && c.indices[k] == b.indices[k - |a.groups|]
    {
    }
  }

  /** The groups of the first pass meet the threshold and hold the microservices they name. */
  lemma {:induction false} FirstMeets(series: seq<Series>, maxSize: int, threshold: real, first: Grouping)
    requires WellFormed(series) && first == OfCandidates(Pass(series, maxSize, threshold).accepted)
    ensures MeetsThreshold(first, threshold)
    ensures |series| <= BaseOffset ==> Denotes(series, first, |first.groups|)
  {
    PassGroups(series, maxSize, threshold);
    forall k, j | 0 <= k < |first.groups| && 0 <= j < |first.indices[k]|
      ensures 0 <= first.indices[k][j] < |series| && first.groups[k][j] == series[first.indices[k][j]]
    {
      assert first.indices[k][j] in first.indices[k];
    }
  }

  /** The base component of the `q`-th leftover. */
  lemma BaseAt(series: seq<Series>, left: seq<int>, q: int)
    requires WellFormed(series) && Within(left, 0, |series|) && 0 <= q < |left|
    ensures 0 <= left[q] < |series| && |Leftover(series, left).bases| == |left|
    ensures Leftover(series, left).bases[q] == Split(series[left[q]], DefaultThresholdStd).0
  {
    SplitAllBases(series, left);
  }

  /** One group of base components holds the base components of the microservices its
      encoded indices name. */
  lemma {:induction false} BaseMembers(series: seq<Series>, left: seq<int>, bases: seq<Series>, ix: seq<int>,
                                       grp: seq<Series>, enc: seq<int>)
    requires WellFormed(series) && Within(left, 0, |series|) && Within(ix, 0, |left|)
    requires bases == Leftover(series, left).bases && |bases| == |left|
    requires grp == Pick(bases, ix) && enc == Encode(ix, left)
    ensures |grp| == |enc| && forall j :: 0 <= j < |enc| ==> Names(|series|, enc[j]) && grp[j] == Member(series, enc[j])
  {
    forall j | 0 <= j < |enc| ensures Names(|series|, enc[j]) && grp[j] == Member(series, enc[j]) {
      var q := ix[j];
      assert q in ix;
      BaseAt(series, left, q);
      assert enc[j] == BaseOffset + left[q] && grp[j] == bases[q];
    }
  }

  /** The groups of the second pass meet the threshold and hold the base components of the
      microservices they name. */
  lemma {:induction false} BaseMeets(series: seq<Series>, left: seq<int>, maxSize: int, threshold: real,
                                     o: Outcome, g: Grouping)
    requires WellFormed(series) && Within(left, 0, |series|)
    requires o == Pass(Leftover(series, left).bases, maxSize, threshold)
    requires g == BaseGrouped(o.accepted, left)
    ensures MeetsThreshold(g, threshold) && Denotes(series, g, |g.groups|)
  {
    var bases := Leftover(series, left).bases;
    PassGroups(bases, maxSize, threshold);
    var first := OfCandidates(o.accepted);
    assert g.groups == first.groups;
    forall k | 0 <= k < |g.groups|
      ensures |g.groups[k]| == |g.indices[k]| && forall j :: 0 <= j < |g.indices[k]| ==>
        Names(|series|, g.indices[k][j]) && g.groups[k][j] == Member(series, g.indices[k][j])
    {
      assert g.indices[k] == Encode(first.indices[k], left);
      BaseMembers(series, left, bases, first.indices[k], g.groups[k], g.indices[k]);
    }
  }

  /** The base components the second pass leaves alone each form a group of one. */
  lemma {:induction false} UngroupedMeets(series: seq<Series>, left: seq<int>, bases: seq<Series>, avail: seq<int>,
                                          threshold: real, g: Grouping)
    requires WellFormed(series) && Within(left, 0, |series|)
    requires bases == Leftover(series, left).bases && |bases| == |left|
    requires Within(avail, 0, |left|) && g == Ungrouped(bases, left, avail)
    ensures MeetsThreshold(g, threshold) && Denotes(series, g, |g.groups|)
  {
    forall k | 0 <= k < |g.groups|
      ensures |g.groups[k]| == |g.indices[k]| == 1
      ensures Names(|series|, g.indices[k][0]) && g.groups[k][0] == Member(series, g.indices[k][0])
    {
      var q := avail[k];
      assert q in avail;
      BaseAt(series, left, q);
      assert g.groups[k] == [bases[q]] && g.indices[k] == [BaseOffset + left[q]];
    }
  }

  /** Peak components are listed alone. */
  lemma PeakMeets(peaks: seq<Series>, peakIdx: seq<int>, threshold: real)
    ensures MeetsThreshold(PeakGroups(peaks, peakIdx), threshold)
  {
  }

  /** Every group `form_multiple_knapsack_groups` returns with two or more members has a CV
      below the threshold, and every other group is a single series. For at most 1000
      microservices, each group before the peak components holds exactly the loads its
      indices name: microservice `p` itself, or the base component of `p` under `1000 + p`. */
  lemma {:induction false} GroupsMeetThreshold(series: seq<Series>, maxSize: int, threshold: real)
    requires WellFormed(series)
    ensures MeetsThreshold(FormGroups(series, maxSize, threshold), threshold)
    ensures |series| <= BaseOffset ==>
      Denotes(series, FormGroups(series, maxSize, threshold), |MainPart(series, maxSize, threshold).groups|)
  {
    FormGroupsParts(series, maxSize, threshold);
    var o := Pass(series, maxSize, threshold);
    var first := OfCandidates(o.accepted);
    var main := MainPart(series, maxSize, threshold);
    var pk := PeakPart(series, maxSize, threshold);
    var parts := Leftover(series, o.remaining);
    FirstMeets(series, maxSize, threshold, first);
    PeakMeets(parts.peaks, parts.peakIdx, threshold);
    if |o.remaining| > 0 {
      var o2 := Pass(parts.bases, maxSize, threshold);
      var bg := BaseGrouped(o2.accepted, o.remaining);
      var ug := Ungrouped(parts.bases, o.remaining, o2.remaining);
      BaseMeets(series, o.remaining, maxSize, threshold, o2, bg);
      UngroupedMeets(series, o.remaining, parts.bases, o2.remaining, threshold, ug);
      CatMeets(bg, ug, threshold);
      CatMeets(first, Cat(bg, ug), threshold);
      CatMeets(main, pk, threshold);
      if |series| <= BaseOffset {
        CatDenotes(series, bg, ug);
        CatDenotes(series, first, Cat(bg, ug));
      }
    } else {
      CatMeets(main, pk, threshold);
    }
  }
}

/** The entry point, `form_multiple_knapsack_groups`, with what it promises about the lists
    it returns. */
module GroupFinder {
  import opened SeqUtil
  import opened Stats
  import opened Candidates
  import opened Greedy
  import opened Splitter
  import opened Pipeline
  import opened PipelineProps

  /** What the result promises: slot sums that match their groups, a CV below the threshold
      for every group of two or more and, for at most 1000 microservices, the loads each
      group holds and the role partition of the index lists. */
  lemma Promises(series: seq<Series>, maxSize: int, threshold: real, g: Grouping)
    requires WellFormed(series) && g == FormGroups(series, maxSize, threshold)
    ensures Consistent(g) && MeetsThreshold(g, threshold)
    ensures |series| <= BaseOffset ==> Denotes(series, g, |MainPart(series, maxSize, threshold).groups|)
    ensures |series| <= BaseOffset ==>
      var left := Pass(series, maxSize, threshold).remaining;
      Roles(|series|, left, WithExtreme(series, left), g.indices, |MainPart(series, maxSize, threshold).indices|)
  {
    SlotSumsMatchGroups(series, maxSize, threshold);
    GroupsMeetThreshold(series, maxSize, threshold);
    if |series| <= BaseOffset {
      RolePartition(series, maxSize, threshold);
    }
  }

  /** `form_multiple_knapsack_groups`. */
  method FormMultipleKnapsackGroups(series: seq<Series>, maxSize: int, threshold: real)
    returns (groups: seq<seq<Series>>, indices: seq<seq<int>>, slotSums: seq<Series>)
    requires WellFormed(series)
    ensures Grouping(groups, indices, slotSums) == FormGroups(series, maxSize, threshold)
    ensures Consistent(Grouping(groups, indices, slotSums))
    ensures MeetsThreshold(Grouping(groups, indices, slotSums), threshold)
    ensures |series| <= BaseOffset ==>
      Denotes(series, Grouping(groups, indices, slotSums), |MainPart(series, maxSize, threshold).groups|)
    ensures |series| <= BaseOffset ==>
      var left := Pass(series, maxSize, threshold).remaining;
      Roles(|series|, left, WithExtreme(series, left), indices, |MainPart(series, maxSize, threshold).indices|)
  {
    var n := |series|;
    ghost var o := Pass(series, maxSize, threshold);
    ghost var first := OfCandidates(o.accepted);
    var final := new GroupLists();
    var peakLists := new GroupLists();
    RangeFresh(series);
    var avail := GroupOriginalMicroservices(series, Range(n), maxSize, threshold, final);
    assert avail == o.remaining;
    assert Contents(final) == first;
    if |avail| == 0 {
      FinalizeResults(final, peakLists);
      assert Zipped(Contents(peakLists)) == Grouping([], [], []);
      CatEmpty(first);
      assert FormGroups(series, maxSize, threshold) == first;
      Promises(series, maxSize, threshold, Contents(final));
      return final.groups, final.indices, final.slotSums;
    }
    GroupLeftover(series, avail, maxSize, threshold, final, peakLists, first);
    ghost var parts := Leftover(series, avail);
    ghost var pg := PeakGroups(parts.peaks, parts.peakIdx);
    FinalizeResults(final, peakLists);
    ZippedParallel(pg);
    FormGroupsLeftover(series, maxSize, threshold);
    Promises(series, maxSize, threshold, Contents(final));
    return final.groups, final.indices, final.slotSums;
  }
}
