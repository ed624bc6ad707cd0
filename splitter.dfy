/** Splitting the load of a microservice that could not be grouped into a base part, capped
    at the largest load outside its peak region, and a peak part holding the excess. */
module Splitter {
  import opened Stats
  import opened Candidates

  /** Default `threshold_std` of the splitter. */
  const DefaultThresholdStd: real := 0.1

  function Min(a: real, b: real): real { if a <= b then a else b }
  function Max(a: real, b: real): real { if a >= b then a else b }

  /** `x > mean + t * std`, where `std` is the non-negative square root of `variance`,
      decided without taking the root (see `ExceedsExact`). */
  predicate Exceeds(x: real, mean: real, variance: real, t: real)
  {
    var d := x - mean;
    if t >= 0.0 then d > 0.0 && Sq(d) > Sq(t) * variance
    else d > 0.0 || Sq(d) < Sq(t) * variance
  }

  lemma SqNeg(x: real)
    ensures Sq(-x) == Sq(x)
  {
  }

  /** `Exceeds` is exactly the comparison with the standard deviation, for every root. */
  lemma ExceedsExact(x: real, mean: real, variance: real, t: real, std: real)
    requires std >= 0.0 && Sq(std) == variance
    ensures Exceeds(x, mean, variance, t) <==> x > mean + t * std
  {
    var d := x - mean;
    var ts := t * std;
    assert Sq(t) * variance == Sq(ts);
    if t >= 0.0 {
      assert ts >= 0.0;
      if d > ts {
        SquareLess(ts, d);
      } else if d > 0.0 {
        if d < ts {
          SquareLess(d, ts);
        }
        assert Sq(d) <= Sq(ts);
      }
    } else {
      assert ts <= 0.0;
      SqNeg(d);
      SqNeg(ts);
      if d <= 0.0 {
        if d > ts {
          SquareLess(-d, -ts);
        } else if d < ts {
          SquareLess(-ts, -d);
        }
      }
    }
  }

  /** Squaring preserves the order of non-negative numbers. */
  lemma SquareOrder(a: real, b: real)
    requires a >= 0.0 && b >= 0.0
    ensures Sq(a) < Sq(b) <==> a < b
  {
    if a < b {
      SquareLess(a, b);
    } else if b < a {
      SquareLess(b, a);
    }
  }

  /** Slot `i` is an extreme: its load exceeds the mean by more than `t` standard deviations. */
  predicate Extreme(s: Series, t: real, i: int)
    requires 0 <= i < |s|
  {
    Exceeds(s[i], Mean(s), Variance(s), t)
  }

  predicate HasExtreme(s: Series, t: real)
  {
    exists i :: 0 <= i < |s| && Extreme(s, t, i)
  }

  /** The first extreme at or after `i`, or `|s|` when there is none. */
  function FirstFrom(s: Series, t: real, i: nat): (r: int)
    requires i <= |s|
    ensures i <= r <= |s|
    ensures r < |s| ==> Extreme(s, t, r)
    ensures forall k :: i <= k < r ==> !Extreme(s, t, k)
    decreases |s| - i
  {
    if i == |s| then |s| else if Extreme(s, t, i) then i else FirstFrom(s, t, i + 1)
  }

  /** The last extreme before `j`, or -1 when there is none. */
  function LastBefore(s: Series, t: real, j: int): (r: int)
    requires 0 <= j <= |s|
    ensures -1 <= r < j
    ensures r >= 0 ==> Extreme(s, t, r)
    ensures forall k :: r < k < j ==> !Extreme(s, t, k)
    decreases j
  {
    if j == 0 then -1 else if Extreme(s, t, j - 1) then j - 1 else LastBefore(s, t, j - 1)
  }

  /** Start of the run of above-mean slots that ends just before `i`. */
  function LeftStart(s: Series, i: int, m: real): (r: int)
    requires 0 <= i <= |s|
    ensures 0 <= r <= i
    ensures forall k :: r <= k < i ==> s[k] > m
    ensures r == 0 || s[r - 1] <= m
    decreases i
  {
    if i > 0 && s[i - 1] > m then LeftStart(s, i - 1, m) else i
  }

  /** End (exclusive) of the run of above-mean slots that starts at `j`. */
  function RightEnd(s: Series, j: int, m: real): (r: int)
    requires 0 <= j <= |s|
    ensures j <= r <= |s|
    ensures forall k :: j <= k < r ==> s[k] > m
    ensures r == |s| || s[r] <= m
    decreases |s| - j
  {
    if j < |s| && s[j] > m then RightEnd(s, j + 1, m) else j
  }

  /** The peak region: the above-mean run just before the first extreme, every extreme,
      and the above-mean run just after the last. Non-extreme slots between the first and
      the last extreme are outside it. */
  predicate InRegion(s: Series, t: real, i: int)
    requires 0 <= i < |s|
  {
    var m := Mean(s);
    var first := FirstFrom(s, t, 0);
    var last := LastBefore(s, t, |s|);
    (LeftStart(s, first, m) <= i < first) || Extreme(s, t, i) || (last < i < RightEnd(s, last + 1, m))
  }

  datatype Option<T> = None | Some(value: T)

  /** The largest value of `s` where `mask` is set (`np.max(s[mask])`), if there is one. */
  function MaxWhere(s: seq<real>, mask: seq<bool>): (r: Option<real>)
    requires |mask| == |s|
    ensures r.None? <==> forall i :: 0 <= i < |s| ==> !mask[i]
    ensures r.Some? ==> forall i :: 0 <= i < |s| && mask[i] ==> s[i] <= r.value
    ensures r.Some? ==> exists i :: 0 <= i < |s| && mask[i] && s[i] == r.value
  {
    if |s| == 0 then None
    else
      var n := |s| - 1;
      var rest := MaxWhere(s[..n], mask[..n]);
      if !mask[n] then rest
      else if rest.None? || rest.value < s[n] then Some(s[n])
      else rest
  }

  /** The mask of slots outside `[lo, first)`, the extremes and `(last, hi)`. */
  function Outside(s: Series, t: real, lo: int, first: int, last: int, hi: int): (r: seq<bool>)
    ensures |r| == |s|
  {
    seq(|s|, i requires 0 <= i < |s| => !(lo <= i < first || Extreme(s, t, i) || last < i < hi))
  }

  /** Slots outside the peak region. */
  function Mask(s: Series, t: real): (r: seq<bool>)
    requires |s| > 0
    ensures |r| == |s|
    ensures forall i :: 0 <= i < |s| ==> r[i] == !InRegion(s, t, i)
  {
    var m := Mean(s);
    var first := FirstFrom(s, t, 0);
    var last := LastBefore(s, t, |s|);
    Outside(s, t, LeftStart(s, first, m), first, last, RightEnd(s, last + 1, m))
  }

  /** The cap of the base part: the largest load outside the peak region, or the mean
      when every slot is in it. */
  function Cap(s: Series, t: real): real
    requires |s| > 0
  {
    match MaxWhere(s, Mask(s, t))
    case None => Mean(s)
    case Some(c) => c
  }

  function Zeros(n: nat): (r: Series)
    ensures |r| == n && forall i :: 0 <= i < n ==> r[i] == 0.0
  {
    seq(n, _ => 0.0)
  }

  /** `np.minimum(s, c)` */
  function Clip(s: Series, c: real): (r: Series)
    ensures |r| == |s|
  {
    seq(|s|, i requires 0 <= i < |s| => Min(s[i], c))
  }

  /** `np.maximum(s - c, 0)` */
  function Excess(s: Series, c: real): (r: Series)
    ensures |r| == |s|
  {
    seq(|s|, i requires 0 <= i < |s| => Max(s[i] - c, 0.0))
  }

  /** `split_microservice_load(s, t)` as a pair (base, peak). */
  function Split(s: Series, t: real): (Series, Series)
  {
    if !HasExtreme(s, t) then (s, Zeros(|s|))
    else (Clip(s, Cap(s, t)), Excess(s, Cap(s, t)))
  }

  /** `split_microservice_load`: compute mean and deviation, find the extremes, walk left
      from the first and right from the last while the load stays above the mean, take the
      largest load outside that region as the cap and cut the series there. An empty series
      has a NaN mean, and no comparison with NaN holds, so it has no extremes. */
  method SplitMicroserviceLoad(s: Series, t: real) returns (base: Series, peak: Series)
    ensures (base, peak) == Split(s, t)
  {
    if |s| == 0 {
      return s, [];
    }
    var m := Mean(s);
    var first := FirstFrom(s, t, 0);
    if first == |s| {
      return s, Zeros(|s|);
    }
    var last := LastBefore(s, t, |s|);
    var lo := ExtendLeft(s, first, m);
    var hi := ExtendRight(s, last + 1, m);
    var mask := Outside(s, t, lo, first, last, hi);
    assert mask == Mask(s, t);
    var c := match MaxWhere(s, mask) case None => m case Some(x) => x;
    assert c == Cap(s, t);
    base := Clip(s, c);
    peak := Excess(s, c);
    assert Extreme(s, t, first);
    assert HasExtreme(s, t);
  }

  /** The walk to the left of the first extreme, over slots above the mean. */
  method ExtendLeft(s: Series, first: int, m: real) returns (lo: int)
    requires 0 <= first <= |s|
    ensures lo == LeftStart(s, first, m)
  {
    lo := first;
    while lo > 0 && s[lo - 1] > m
      invariant 0 <= lo <= first
      invariant LeftStart(s, lo, m) == LeftStart(s, first, m)
    {
      lo := lo - 1;
    }
  }

  /** The walk to the right of the last extreme, over slots above the mean. */
  method ExtendRight(s: Series, start: int, m: real) returns (hi: int)
    requires 0 <= start <= |s|
    ensures hi == RightEnd(s, start, m)
  {
    hi := start;
    while hi < |s| && s[hi] > m
      invariant start <= hi <= |s|
      invariant RightEnd(s, hi, m) == RightEnd(s, start, m)
    {
      hi := hi + 1;
    }
  }

  /** The two parts add back up to the series; the peak part is never negative and the
      base part never exceeds the series. */
  lemma SplitReconstructs(s: Series, t: real)
    ensures var (base, peak) := Split(s, t);
      |base| == |s| && |peak| == |s| &&
      forall i :: 0 <= i < |s| ==> base[i] + peak[i] == s[i] && peak[i] >= 0.0 && base[i] <= s[i]
  {
    if HasExtreme(s, t) {
      ClipExcess(s, Cap(s, t));
    }
  }

  /** Cutting at `c`: the parts add up, the excess is not negative, the clipped part is at
      most `c` and at most the load, and a load at most `c` is kept whole. */
  lemma ClipExcess(s: Series, c: real)
    ensures forall i :: 0 <= i < |s| ==>
      Clip(s, c)[i] + Excess(s, c)[i] == s[i] && Excess(s, c)[i] >= 0.0 &&
      Clip(s, c)[i] <= s[i] && Clip(s, c)[i] <= c &&
      (s[i] <= c ==> Clip(s, c)[i] == s[i] && Excess(s, c)[i] == 0.0)
  {
  }

  /** The cap bounds every masked load, and is one of them or, when none is masked, the
      mean. */
  lemma CapFacts(s: Series, t: real)
    requires |s| > 0
    ensures var mask := Mask(s, t);
      (forall i :: 0 <= i < |s| && mask[i] ==> s[i] <= Cap(s, t)) &&
      ((exists i :: 0 <= i < |s| && mask[i] && s[i] == Cap(s, t)) ||
       ((forall i :: 0 <= i < |s| ==> !mask[i]) && Cap(s, t) == Mean(s)))
  {
  }

  /** With extremes, the base part is capped at `Cap`; outside the peak region the series is
      left in the base part untouched and the peak part is zero there; the cap is a load from
      outside the region, or the mean when the region is everything. */
  lemma SplitOutsideRegion(s: Series, t: real)
    requires HasExtreme(s, t)
    ensures var (base, peak) := Split(s, t);
      (forall i :: 0 <= i < |s| ==> base[i] <= Cap(s, t)) &&
      (forall i :: 0 <= i < |s| && !InRegion(s, t, i) ==> base[i] == s[i] && peak[i] == 0.0) &&
      ((exists i :: 0 <= i < |s| && !InRegion(s, t, i) && s[i] == Cap(s, t)) ||
       ((forall i :: 0 <= i < |s| ==> InRegion(s, t, i)) && Cap(s, t) == Mean(s)))
  {
    var c := Cap(s, t);
    var mask := Mask(s, t);
    var base, peak := Clip(s, c), Excess(s, c);
    assert Split(s, t) == (base, peak);
    CapFacts(s, t);
    ClipExcess(s, c);
    forall i | 0 <= i < |s| && !InRegion(s, t, i) ensures base[i] == s[i] && peak[i] == 0.0 {
      assert mask[i];
    }
    if exists i :: 0 <= i < |s| && mask[i] && s[i] == c {
      var i :| 0 <= i < |s| && mask[i] && s[i] == c;
      assert !InRegion(s, t, i);
    } else {
      forall i | 0 <= i < |s| ensures InRegion(s, t, i) {
        assert !mask[i];
      }
    }
  }

  /** An extreme load is strictly above every load outside the peak region (for a
      non-negative threshold). */
  lemma ExtremeAboveMask(s: Series, t: real, i: int, j: int)
    requires t >= 0.0 && 0 <= i < |s| && 0 <= j < |s|
    requires Extreme(s, t, i) && !Extreme(s, t, j)
    ensures s[j] < s[i]
  {
    var m := Mean(s);
    var di, dj := s[i] - m, s[j] - m;
    if dj > 0.0 {
      SquareOrder(dj, di);
    }
  }

  /** With a non-negative threshold, every extreme slot keeps a positive peak. */
  lemma ExtremeHasPeak(s: Series, t: real, i: int)
    requires t >= 0.0 && 0 <= i < |s| && Extreme(s, t, i)
    ensures HasExtreme(s, t)
    ensures Split(s, t).1[i] > 0.0
  {
    var c := Cap(s, t);
    ExtremeAboveCap(s, t, i);
    assert HasExtreme(s, t);
    assert Split(s, t).1 == Excess(s, c);
    ClipExcess(s, c);
    assert Excess(s, c)[i] == Max(s[i] - c, 0.0);
  }

  /** With a non-negative threshold an extreme load lies above the cap. */
  lemma ExtremeAboveCap(s: Series, t: real, i: int)
    requires t >= 0.0 && 0 <= i < |s| && Extreme(s, t, i)
    ensures s[i] > Cap(s, t)
  {
    var mask := Mask(s, t);
    match MaxWhere(s, mask)
    case None =>
      SquareNonNegative(t);
      assert s[i] - Mean(s) > 0.0;
    case Some(x) =>
      var j :| 0 <= j < |s| && mask[j] && s[j] == x;
      assert !InRegion(s, t, j);
      ExtremeAboveMask(s, t, i, j);
  }

  /** Some load exceeds zero. */
  predicate AnyPositive(p: Series)
  {
    exists i :: 0 <= i < |p| && p[i] > 0.0
  }

  /** With a non-negative threshold the peak part is non-zero exactly when the series has
      an extreme, so a peak component is kept for exactly those series. */
  lemma PeakIffExtreme(s: Series, t: real)
    requires t >= 0.0
    ensures AnyPositive(Split(s, t).1) <==> HasExtreme(s, t)
  {
    if HasExtreme(s, t) {
      var i :| 0 <= i < |s| && Extreme(s, t, i);
      ExtremeHasPeak(s, t, i);
    }
  }

  /** What `process_unassigned_microservices` returns: a base component for every unassigned
      microservice, and a peak component for those whose peak part is non-zero. */
  datatype Parts = Parts(bases: seq<Series>, baseIdx: seq<int>, peaks: seq<Series>, peakIdx: seq<int>)

  /** One loop step of `process_unassigned_microservices`, for microservice `x` with load `s`. */
  function Add(p: Parts, x: int, s: Series): Parts
  {
    var parts := Split(s, DefaultThresholdStd);
    if AnyPositive(parts.1) then Parts(p.bases + [parts.0], p.baseIdx + [x], p.peaks + [parts.1], p.peakIdx + [x])
    else Parts(p.bases + [parts.0], p.baseIdx + [x], p.peaks, p.peakIdx)
  }

  function SplitAll(series: seq<Series>, unassigned: seq<int>): Parts
    requires Within(unassigned, 0, |series|)
  {
    if |unassigned| == 0 then Parts([], [], [], [])
    else
      var n := |unassigned| - 1;
      assert forall y :: y in unassigned[..n] ==> y in unassigned;
      assert unassigned[n] in unassigned;
      Add(SplitAll(series, unassigned[..n]), unassigned[n], series[unassigned[n]])
  }

  lemma SplitAllSnoc(series: seq<Series>, unassigned: seq<int>, j: int)
    requires Within(unassigned, 0, |series|) && 0 <= j < |unassigned|
    ensures Within(unassigned[..j], 0, |series|) && Within(unassigned[..j + 1], 0, |series|)
    ensures 0 <= unassigned[j] < |series|
    ensures SplitAll(series, unassigned[..j + 1]) ==
      Add(SplitAll(series, unassigned[..j]), unassigned[j], series[unassigned[j]])
  {
    var u := unassigned[..j + 1];
    assert forall y :: y in u ==> y in unassigned;
    assert forall y :: y in unassigned[..j] ==> y in unassigned;
    assert unassigned[j] in unassigned;
    assert u[..j] == unassigned[..j] && u[j] == unassigned[j];
  }

  /** `process_unassigned_microservices`. */
  method ProcessUnassignedMicroservices(unassigned: seq<int>, series: seq<Series>)
    returns (bases: seq<Series>, baseIdx: seq<int>, peaks: seq<Series>, peakIdx: seq<int>)
    requires Within(unassigned, 0, |series|)
    ensures Parts(bases, baseIdx, peaks, peakIdx) == SplitAll(series, unassigned)
  {
    bases, baseIdx, peaks, peakIdx := [], [], [], [];
    var j := 0;
    while j < |unassigned|
      invariant 0 <= j <= |unassigned|
      invariant Within(unassigned[..j], 0, |series|)
      invariant Parts(bases, baseIdx, peaks, peakIdx) == SplitAll(series, unassigned[..j])
    {
      SplitAllSnoc(series, unassigned, j);
      ghost var before := Parts(bases, baseIdx, peaks, peakIdx);
      var x := unassigned[j];
      var b, k := SplitMicroserviceLoad(series[x], DefaultThresholdStd);
      bases := bases + [b];
      baseIdx := baseIdx + [x];
      if AnyPositive(k) {
        peaks := peaks + [k];
        peakIdx := peakIdx + [x];
      }
      assert Parts(bases, baseIdx, peaks, peakIdx) == Add(before, x, series[x]);
      j := j + 1;
    }
    assert unassigned[..j] == unassigned;
  }

  /** Every unassigned microservice gets its base part, in order. */
  lemma {:induction false} SplitAllBases(series: seq<Series>, unassigned: seq<int>)
    requires Within(unassigned, 0, |series|)
    ensures var p := SplitAll(series, unassigned);
      p.baseIdx == unassigned && |p.bases| == |unassigned| &&
      forall k :: 0 <= k < |unassigned| ==>
        0 <= unassigned[k] < |series| && p.bases[k] == Split(series[unassigned[k]], DefaultThresholdStd).0
  {
    if |unassigned| > 0 {
      var n := |unassigned| - 1;
      SplitAllSnoc(series, unassigned, n);
      var pre := unassigned[..n];
      SplitAllBases(series, pre);
      assert unassigned[..n + 1] == unassigned;
      var x := unassigned[n];
      var q := SplitAll(series, pre);
      var p := SplitAll(series, unassigned);
      assert p.bases == q.bases + [Split(series[x], DefaultThresholdStd).0] && p.baseIdx == pre + [x];
      assert unassigned == pre + [x];
      forall k | 0 <= k < |unassigned|
        ensures 0 <= unassigned[k] < |series| && p.bases[k] == Split(series[unassigned[k]], DefaultThresholdStd).0
      {
        if k < n {
          assert unassigned[k] == pre[k] && p.bases[k] == q.bases[k];
        }
      }
    }
  }

  /** The unassigned microservices whose load has an extreme, in their order. */
  function WithExtreme(series: seq<Series>, unassigned: seq<int>): (r: seq<int>)
    requires Within(unassigned, 0, |series|)
    ensures |r| <= |unassigned|
  {
    if |unassigned| == 0 then []
    else
      var n := |unassigned| - 1;
      assert forall y :: y in unassigned[..n] ==> y in unassigned;
      assert unassigned[n] in unassigned;
      var front := WithExtreme(series, unassigned[..n]);
      if HasExtreme(series[unassigned[n]], DefaultThresholdStd) then front + [unassigned[n]] else front
  }

  /** `WithExtreme` keeps exactly the unassigned microservices with an extreme. */
  lemma {:induction false} WithExtremeExact(series: seq<Series>, unassigned: seq<int>)
    requires Within(unassigned, 0, |series|)
    ensures forall x :: x in WithExtreme(series, unassigned) <==>
      x in unassigned && HasExtreme(series[x], DefaultThresholdStd)
  {
    if |unassigned| > 0 {
      var n := |unassigned| - 1;
      var pre := unassigned[..n];
      assert forall y :: y in pre ==> y in unassigned;
      WithExtremeExact(series, pre);
      assert unassigned == pre + [unassigned[n]];
    }
  }

  /** The peak components are, in order, those of the unassigned microservices whose load
      has an extreme, each the peak part of its split and listed under its own index. */
  lemma {:induction false} SplitAllPeaks(series: seq<Series>, unassigned: seq<int>)
    requires Within(unassigned, 0, |series|)
    ensures var p := SplitAll(series, unassigned);
      p.peakIdx == WithExtreme(series, unassigned) && |p.peaks| == |p.peakIdx| &&
      forall k :: 0 <= k < |p.peakIdx| ==>
        0 <= p.peakIdx[k] < |series| && p.peaks[k] == Split(series[p.peakIdx[k]], DefaultThresholdStd).1
  {
    if |unassigned| > 0 {
      var n := |unassigned| - 1;
      SplitAllSnoc(series, unassigned, n);
      var pre := unassigned[..n];
      SplitAllPeaks(series, pre);
      assert unassigned[..n + 1] == unassigned;
      var x := unassigned[n];
      PeakIffExtreme(series[x], DefaultThresholdStd);
      PeaksStep(series, SplitAll(series, pre), x);
    }
  }

  /** The peak indices alone: exactly the unassigned microservices with an extreme. */
  lemma PeakIndices(series: seq<Series>, unassigned: seq<int>)
    requires Within(unassigned, 0, |series|)
    ensures SplitAll(series, unassigned).peakIdx == WithExtreme(series, unassigned)
    ensures |SplitAll(series, unassigned).peaks| == |SplitAll(series, unassigned).peakIdx|
  {
    SplitAllPeaks(series, unassigned);
  }

  /** One loop step appends a peak exactly when the load has an extreme. */
  lemma PeaksStep(series: seq<Series>, q: Parts, x: int)
    requires 0 <= x < |series| && |q.peaks| == |q.peakIdx|
    requires forall k :: 0 <= k < |q.peakIdx| ==>
      0 <= q.peakIdx[k] < |series| && q.peaks[k] == Split(series[q.peakIdx[k]], DefaultThresholdStd).1
    requires AnyPositive(Split(series[x], DefaultThresholdStd).1) <==> HasExtreme(series[x], DefaultThresholdStd)
    ensures var p := Add(q, x, series[x]);
      p.peakIdx == (if HasExtreme(series[x], DefaultThresholdStd) then q.peakIdx + [x] else q.peakIdx) &&
      |p.peaks| == |p.peakIdx| &&
      forall k :: 0 <= k < |p.peakIdx| ==>
        0 <= p.peakIdx[k] < |series| && p.peaks[k] == Split(series[p.peakIdx[k]], DefaultThresholdStd).1
  {
  }
}
