/** The pure parts of shared/db_output.py: the two normalisations applied to load series
    before they are stored, and how `save_grouping_results` turns the grouping's encoded
    member indices back into (role, microservice) pairs and into table rows. The database
    cursor, commit and rollback are represented only by what ends up committed. */
module DbOutput {
  import opened Stats
  import Pipeline

  datatype Result<T> = Ok(value: T) | Err(message: string)

  /** The `method` argument of `normalize_data`: "standard", "minmax", "robust" or any
      other string. */
  datatype Scaling = Standard | MinMax | Robust | OtherScaling(name: string)

  /** The `metric_type` argument: "CPU", "RAM", "CHANNEL" or any other string. */
  datatype Metric = Cpu | Ram | Channel | OtherMetric(name: string)

  // ---------------------------------------------------------------------------
  // normalize_data

  /** `(values - center) / scale`, element by element. */
  function Shift(values: seq<real>, center: real, scale: real): (r: seq<real>)
    requires scale != 0.0
    ensures |r| == |values|
  {
    seq(|values|, i requires 0 <= i < |values| => (values[i] - center) / scale)
  }

  /** Every normalisation by `Shift` is undone by `* scale + center`: nothing is lost. */
  lemma ShiftInverse(values: seq<real>, center: real, scale: real)
    requires scale != 0.0
    ensures forall i :: 0 <= i < |values| ==> Shift(values, center, scale)[i] * scale + center == values[i]
  {
    var r := Shift(values, center, scale);
    forall i | 0 <= i < |values| ensures r[i] * scale + center == values[i] {
      assert r[i] == (values[i] - center) / scale;
    }
  }

  function Zeros(n: nat): (r: seq<real>)
    ensures |r| == n && forall i :: 0 <= i < n ==> r[i] == 0.0
  {
    seq(n, i => 0.0)
  }

  /** `np.min` of a non-empty array. */
  function MinOf(s: seq<real>): (r: real)
    requires |s| > 0
    ensures (forall i :: 0 <= i < |s| ==> r <= s[i]) && r in s
  {
    if |s| == 1 then s[0]
    else
      var m := MinOf(s[..|s| - 1]);
      assert forall x :: x in s[..|s| - 1] ==> x in s;
      if s[|s| - 1] < m then s[|s| - 1] else m
  }

  /** `np.max` of a non-empty array. */
  function MaxOf(s: seq<real>): (r: real)
    requires |s| > 0
    ensures (forall i :: 0 <= i < |s| ==> s[i] <= r) && r in s
  {
    if |s| == 1 then s[0]
    else
      var m := MaxOf(s[..|s| - 1]);
      assert forall x :: x in s[..|s| - 1] ==> x in s;
      if s[|s| - 1] > m then s[|s| - 1] else m
  }

  /** `normalize_data(values, method)`, with the method named `how`. numpy's standard
      deviation, median and quartiles are passed in: `std` is the non-negative root of the
      population variance, and `median`, `q1`, `q3` are whatever `np.median` and
      `np.percentile` return. `np.min` of an empty array raises; the mean of an empty array
      is NaN, which leaves nothing to divide. */
  function NormalizeData(values: seq<real>, how: Scaling, std: real, median: real, q1: real, q3: real)
    : (r: Result<seq<real>>)
    requires |values| > 0 && how == Standard ==> 0.0 <= std && Sq(std) == Variance(values)
    ensures r.Err? <==> how == MinMax && |values| == 0
    ensures r.Ok? ==> |r.value| == |values|
    ensures how.OtherScaling? ==> r == Ok(values)
  {
    match how
    case Standard =>
      if |values| == 0 then Ok([])
      else if std == 0.0 then Ok(values)
      else Ok(Shift(values, Mean(values), std))
    case MinMax =>
      if |values| == 0 then Err("zero-size array")
      else Ok(MinMaxScale(values, MinOf(values), MaxOf(values)))
    case Robust =>
      var iqr := q3 - q1;
      if iqr == 0.0 then Ok(values) else Ok(Shift(values, median, iqr))
    case OtherScaling(_) => Ok(values)
  }

  /** `minmax` given the extremes `lo` and `hi`: all zeros when they are equal, and
      otherwise `(values - lo) / (hi - lo)`. */
  function MinMaxScale(values: seq<real>, lo: real, hi: real): (r: seq<real>)
    ensures |r| == |values|
  {
    if hi == lo then Zeros(|values|) else Shift(values, lo, hi - lo)
  }

  lemma {:induction false} SumShift(s: seq<real>, c: real, k: real)
    requires k != 0.0
    ensures Sum(Shift(s, c, k)) == (Sum(s) - (|s| as real) * c) / k
    decreases |s|
  {
    if |s| > 0 {
      var n := |s| - 1;
      SumShift(s[..n], c, k);
      ShiftPrefix(s, c, k, n);
      ShiftAt(s, c, k, n);
      SumLast(Shift(s, c, k), n);
      SumLast(s, n);
      ShiftStep(Sum(Shift(s, c, k)), Sum(Shift(s[..n], c, k)), Shift(s, c, k)[n], Sum(s[..n]), s[n],
                |s[..n]| as real, Sum(s), |s| as real, c, k);
    } else {
      SumShiftEmpty(s, c, k);
    }
  }

  lemma SumShiftEmpty(s: seq<real>, c: real, k: real)
    requires k != 0.0 && |s| == 0
    ensures Sum(Shift(s, c, k)) == (Sum(s) - (|s| as real) * c) / k
  {
    assert Shift(s, c, k) == [];
    assert Sum(s) - (|s| as real) * c == 0.0;
  }

  /** Shifting a prefix is the prefix of the shifted list. */
  lemma ShiftPrefix(s: seq<real>, c: real, k: real, n: nat)
    requires k != 0.0 && n <= |s|
    ensures Shift(s, c, k)[..n] == Shift(s[..n], c, k)
  {
    var whole := Shift(s, c, k);
    var front := Shift(s[..n], c, k);
    forall i | 0 <= i < n
      ensures whole[i] == front[i]
    {
      assert s[..n][i] == s[i];
    }
  }

  /** A sum is the sum of all but the last value plus the last value. */
  lemma SumLast(u: seq<real>, n: nat)
    requires n + 1 == |u|
    ensures Sum(u) == Sum(u[..n]) + u[n]
  {
  }

  /** One value of `Shift`. */
  lemma ShiftAt(s: seq<real>, c: real, k: real, i: int)
    requires k != 0.0 && 0 <= i < |s|
    ensures Shift(s, c, k)[i] == (s[i] - c) / k
  {
  }

  /** The arithmetic of one step of `SumShift`: adding the shifted last value to the
      shifted sum of the others. */
  lemma ShiftStep(whole: real, left: real, last: real, a: real, x: real, n: real, total: real, len: real,
                  c: real, k: real)
    requires k != 0.0 && left == (a - n * c) / k && last == (x - c) / k
    requires whole == left + last && total == a + x && len == n + 1.0
    ensures whole == (total - len * c) / k
  {
    AddQuotients(a - n * c, x - c, k);
    assert len * c == n * c + c;
    assert (a - n * c) + (x - c) == total - len * c;
  }

  /** `standard` leaves the values alone exactly when they are all equal, and otherwise its
      z-scores sum to zero. */
  lemma StandardScores(values: seq<real>, std: real)
    requires |values| > 0 && 0.0 <= std && Sq(std) == Variance(values)
    ensures var r := NormalizeData(values, Standard, std, 0.0, 0.0, 0.0);
      (r == Ok(values) && std == 0.0) || Sum(r.value) == 0.0
    ensures std == 0.0 <==> forall i :: 0 <= i < |values| ==> values[i] == Mean(values)
  {
    SqDevZero(values, Mean(values));
    VarianceZero(values);
    if std != 0.0 {
      SquarePositive(std);
      ShiftedSumZero(values, std);
    }
  }

  /** The variance is zero exactly when the squared deviations sum to zero. */
  lemma VarianceZero(values: seq<real>)
    requires |values| > 0
    ensures Variance(values) == 0.0 <==> SqDev(values, Mean(values)) == 0.0
  {
    var d := SqDev(values, Mean(values));
    var n := |values| as real;
    assert Variance(values) == d / n;
    if d / n == 0.0 {
      assert d == (d / n) * n;
    }
  }

  /** Centred on the mean, the values sum to zero, whatever the scale. */
  lemma ShiftedSumZero(values: seq<real>, std: real)
    requires |values| > 0 && std != 0.0
    ensures Sum(Shift(values, Mean(values), std)) == 0.0
  {
    var m := Mean(values);
    var n := |values| as real;
    SumShift(values, m, std);
    assert m == Sum(values) / n;
    assert n * m == Sum(values);
    assert Sum(values) - n * m == 0.0;
  }

  /** Dividing by a positive width keeps the order of the numerators. */
  lemma DivideOrder(a: real, b: real, w: real)
    requires w > 0.0
    ensures a / w <= b / w <==> a <= b
  {
    assert (a / w) * w == a && (b / w) * w == b;
    if a / w <= b / w {
      assert (a / w) * w <= (b / w) * w;
    }
    if b / w < a / w {
      assert (b / w) * w < (a / w) * w;
    }
  }

  /** Where a value falls between `lo` and `lo + w` after `(x - lo) / w`. */
  lemma UnitPosition(x: real, lo: real, w: real)
    requires w > 0.0 && lo <= x <= lo + w
    ensures 0.0 <= (x - lo) / w <= 1.0
    ensures (x - lo) / w == 0.0 <==> x == lo
    ensures (x - lo) / w == 1.0 <==> x == lo + w
  {
    DivideOrder(0.0, x - lo, w);
    DivideOrder(x - lo, w, w);
    assert ((x - lo) / w) * w == x - lo;
  }

  /** `r` is `values` mapped into [0, 1] with exactly the values equal to `lo` at 0, exactly
      those equal to `hi` at 1, and the order of the values kept. */
  predicate UnitMap(values: seq<real>, r: seq<real>, lo: real, hi: real)
    requires |r| == |values|
  {
    (forall i :: 0 <= i < |values| ==> 0.0 <= r[i] <= 1.0) &&
    (forall i :: 0 <= i < |values| ==> (r[i] == 0.0 <==> values[i] == lo)) &&
    (forall i :: 0 <= i < |values| ==> (r[i] == 1.0 <==> values[i] == hi)) &&
    (forall i, j :: 0 <= i < |values| && 0 <= j < |values| ==> (r[i] <= r[j] <==> values[i] <= values[j]))
  }

  /** Scaling values that lie in [lo, hi] by `(x - lo) / (hi - lo)` is such a map. */
  lemma UnitScaled(values: seq<real>, lo: real, hi: real)
    requires lo < hi && forall i :: 0 <= i < |values| ==> lo <= values[i] <= hi
    ensures UnitMap(values, Shift(values, lo, hi - lo), lo, hi)
  {
    var w := hi - lo;
    var r := Shift(values, lo, w);
    forall i | 0 <= i < |values|
      ensures 0.0 <= r[i] <= 1.0 && (r[i] == 0.0 <==> values[i] == lo) && (r[i] == 1.0 <==> values[i] == hi)
    {
      UnitPosition(values[i], lo, w);
    }
    forall i, j | 0 <= i < |values| && 0 <= j < |values|
      ensures r[i] <= r[j] <==> values[i] <= values[j]
    {
      DivideOrder(values[i] - lo, values[j] - lo, w);
    }
  }

  /** `minmax` with distinct extremes `lo` and `hi` maps into [0, 1], sends exactly the
      minima to 0 and exactly the maxima to 1, and keeps the order of the values. */
  lemma MinMaxScaled(values: seq<real>, lo: real, hi: real)
    requires |values| > 0 && lo == MinOf(values) && hi == MaxOf(values) && lo != hi
    ensures UnitMap(values, NormalizeData(values, MinMax, 0.0, 0.0, 0.0, 0.0).value, lo, hi)
  {
    assert lo < hi by {
      assert lo <= values[0] <= hi;
    }
    assert forall i :: 0 <= i < |values| ==> lo <= values[i] <= hi;
    MinMaxBranch(values);
    DistinctExtremes(values, lo, hi);
    UnitScaled(values, lo, hi);
  }

  lemma MinMaxBranch(values: seq<real>)
    requires |values| > 0
    ensures NormalizeData(values, MinMax, 0.0, 0.0, 0.0, 0.0) == Ok(MinMaxScale(values, MinOf(values), MaxOf(values)))
  {
  }

  lemma DistinctExtremes(values: seq<real>, lo: real, hi: real)
    requires lo != hi
    ensures MinMaxScale(values, lo, hi) == Shift(values, lo, hi - lo)
  {
  }

  /** A value equal to the median becomes 0 under `robust` whenever the quartiles differ. */
  lemma RobustCentresMedian(values: seq<real>, median: real, q1: real, q3: real, i: int)
    requires 0 <= i < |values| && values[i] == median && q3 - q1 != 0.0
    ensures NormalizeData(values, Robust, 0.0, median, q1, q3).value[i] == 0.0
  {
    var r := NormalizeData(values, Robust, 0.0, median, q1, q3).value;
    assert r[i] == (values[i] - median) / (q3 - q1);
  }

  // ---------------------------------------------------------------------------
  // normalize_to_percentage

  /** `np.clip(x, 0, 100)`. */
  function Clip100(x: real): (r: real)
    ensures 0.0 <= r <= 100.0
    ensures 0.0 <= x <= 100.0 ==> r == x
    ensures x < 0.0 ==> r == 0.0
    ensures x > 100.0 ==> r == 100.0
  {
    if x < 0.0 then 0.0 else if x > 100.0 then 100.0 else x
  }

  function ClipAll(values: seq<real>): (r: seq<real>)
    ensures |r| == |values| && forall i :: 0 <= i < |values| ==> 0.0 <= r[i] <= 100.0
  {
    seq(|values|, i requires 0 <= i < |values| => Clip100(values[i]))
  }

  /** `values / scale * 100`, element by element. */
  function Percent(values: seq<real>, scale: real): (r: seq<real>)
    requires scale != 0.0
    ensures |r| == |values|
  {
    seq(|values|, i requires 0 <= i < |values| => values[i] / scale * 100.0)
  }

  /** `normalize_to_percentage(values, metric_type, max_ram_kb, max_channel_kb)` before the
      final rounding to two decimals. `max_channel_kb` is accepted and never used. */
  function NormalizeToPercentage(values: seq<real>, metric: Metric, maxRamKb: real, maxChannelKb: real)
    : (r: Result<seq<real>>)
    ensures r.Err? <==> (metric == Ram && maxRamKb <= 0.0) || (metric == Channel && |values| == 0) ||
                        metric.OtherMetric?
    ensures r.Ok? ==> |r.value| == |values| && forall i :: 0 <= i < |values| ==> 0.0 <= r.value[i] <= 100.0
  {
    match metric
    case Cpu => Ok(ClipAll(values))
    case Ram =>
      if maxRamKb <= 0.0 then Err("max_ram_kb must be positive")
      else Ok(ClipAll(Percent(values, maxRamKb)))
    case Channel =>
      if |values| == 0 then Err("zero-size array")
      else
        var top := MaxOf(values);
        if top > 0.0 then Ok(ClipAll(Percent(values, top))) else Ok(ClipAll(Zeros(|values|)))
    case OtherMetric(_) => Err("unsupported metric type")
  }

  /** CPU values already are percentages: in-range values pass through, and normalising
      twice changes nothing. */
  lemma CpuIdempotent(values: seq<real>)
    ensures var r := NormalizeToPercentage(values, Cpu, 0.0, 0.0).value;
      (forall i :: 0 <= i < |values| && 0.0 <= values[i] <= 100.0 ==> r[i] == values[i]) &&
      NormalizeToPercentage(r, Cpu, 0.0, 0.0) == Ok(r)
  {
    var r := NormalizeToPercentage(values, Cpu, 0.0, 0.0).value;
    assert ClipAll(r) == r;
  }

  /** `x / top * 100` is the share of `x` in `top`, in percent. */
  lemma Share(x: real, top: real)
    requires top > 0.0
    ensures (x / top * 100.0) * top == x * 100.0
    ensures x == top ==> x / top * 100.0 == 100.0
    ensures x >= top ==> x / top * 100.0 >= 100.0
    ensures x <= 0.0 ==> x / top * 100.0 <= 0.0
    ensures 0.0 <= x <= top ==> 0.0 <= x / top * 100.0 <= 100.0
  {
    DivideOrder(x, top, top);
    DivideOrder(0.0, x, top);
    assert top / top == 1.0;
  }

  /** RAM in range is the share of `max_ram_kb` in percent, and anything above it is 100. */
  lemma RamShare(values: seq<real>, maxRamKb: real, i: int)
    requires maxRamKb > 0.0 && 0 <= i < |values|
    ensures var r := NormalizeToPercentage(values, Ram, maxRamKb, 0.0).value;
      (0.0 <= values[i] <= maxRamKb ==> r[i] * maxRamKb == values[i] * 100.0) &&
      (values[i] >= maxRamKb ==> r[i] == 100.0) && (values[i] <= 0.0 ==> r[i] == 0.0)
  {
    var r := NormalizeToPercentage(values, Ram, maxRamKb, 0.0).value;
    assert r[i] == Clip100(values[i] / maxRamKb * 100.0);
    Share(values[i], maxRamKb);
  }

  /** The default `max_ram_kb`: 2 GiB in kilobytes. */
  const DefaultMaxRamKb: real := 2097152.0

  /** With the default `max_ram_kb`, 1 GiB of RAM reads as 50 percent. */
  lemma DefaultRamHalf()
    ensures NormalizeToPercentage([1048576.0], Ram, DefaultMaxRamKb, 0.0) == Ok([50.0])
  {
    var r := NormalizeToPercentage([1048576.0], Ram, DefaultMaxRamKb, 0.0).value;
    RamShare([1048576.0], DefaultMaxRamKb, 0);
    assert r[0] * 2097152.0 == 104857600.0;
    assert r == [50.0];
  }

  /** One entry of `ClipAll(Percent(values, top))` for a positive `top` no value exceeds. */
  lemma ShareOfTop(values: seq<real>, top: real, i: int)
    requires top > 0.0 && 0 <= i < |values| && values[i] <= top
    ensures var r := ClipAll(Percent(values, top));
      (values[i] == top ==> r[i] == 100.0) && (values[i] >= 0.0 ==> r[i] == values[i] / top * 100.0)
  {
    var p := values[i] / top * 100.0;
    assert ClipAll(Percent(values, top))[i] == Clip100(p);
    Share(values[i], top);
  }

  /** CHANNEL is scaled by the sample maximum when it is positive: the busiest slot becomes
      100, and every non-negative value its share of the maximum (`Share` turns the
      quotient back into the value). */
  lemma ChannelShare(values: seq<real>, i: int)
    requires 0 <= i < |values| && MaxOf(values) > 0.0
    ensures var r := NormalizeToPercentage(values, Channel, 0.0, 0.0).value;
      (values[i] == MaxOf(values) ==> r[i] == 100.0) &&
      (values[i] >= 0.0 ==> r[i] == values[i] / MaxOf(values) * 100.0)
  {
    var top := MaxOf(values);
    assert NormalizeToPercentage(values, Channel, 0.0, 0.0).value == ClipAll(Percent(values, top));
    ShareOfTop(values, top, i);
  }

  /** With no positive CHANNEL value, every slot becomes 0. */
  lemma ChannelSilent(values: seq<real>)
    requires |values| > 0 && MaxOf(values) <= 0.0
    ensures forall i :: 0 <= i < |values| ==> NormalizeToPercentage(values, Channel, 0.0, 0.0).value[i] == 0.0
  {
    assert NormalizeToPercentage(values, Channel, 0.0, 0.0).value == ClipAll(Zeros(|values|));
  }

  // ---------------------------------------------------------------------------
  // save_grouping_results: roles and rows

  datatype Role = Original | Base | Peak

  function RoleName(role: Role): string
  {
    match role
    case Original => "original"
    case Base => "base"
    case Peak => "peak"
  }

  /** How the grouping writes a member: `i`, `1000 + i` or `-i`. */
  function EncodeRole(role: Role, i: nat): int
  {
    match role
    case Original => i as int
    case Base => Pipeline.BaseOffset + i
    case Peak => -(i as int)
  }

  /** The role and microservice index `save_grouping_results` reads back from a member;
      encoding what it reads gives the member back. */
  function Decode(idx: int): (r: (Role, nat))
    ensures EncodeRole(r.0, r.1) == idx
    ensures r.0 == Original ==> r.1 < Pipeline.BaseOffset
    ensures r.0 == Peak ==> r.1 > 0
  {
    if idx >= Pipeline.BaseOffset then (Base, idx - Pipeline.BaseOffset)
    else if idx < 0 then (Peak, -idx)
    else (Original, idx)
  }

  /** Reading back an encoded member recovers it exactly when an original index is below
      1000 and a peak index is not 0. */
  lemma RoleRoundTrip(role: Role, i: nat)
    ensures Decode(EncodeRole(role, i)) == (role, i) <==>
      (role == Original ==> i < Pipeline.BaseOffset) && (role == Peak ==> i > 0)
  {
    var d := Decode(EncodeRole(role, i));
    if role == Peak && i == 0 {
      assert d.0 == Original;
    }
    if role == Original && i >= Pipeline.BaseOffset {
      assert d.0 == Base;
    }
  }

  /** The peak component of microservice 0 is written as 0 and so reads back as the
      original microservice 0. */
  lemma PeakOfZeroReadsAsOriginal()
    ensures EncodeRole(Peak, 0) == EncodeRole(Original, 0)
    ensures Decode(EncodeRole(Peak, 0)) == (Original, 0)
  {
  }

  /** One row of `grouping_results`. */
  datatype Row = Row(groupId: int, serviceName: string, date: string, time: string,
                     metricType: string, componentType: string)

  function MakeRow(groupId: int, idx: int, names: seq<string>, metric: string, date: string, time: string): Row
    requires Decode(idx).1 < |names|
  {
    var d := Decode(idx);
    Row(groupId, names[d.1], date, time, metric, RoleName(d.0))
  }

  /** Every member of the first `m` groups names a microservice that `service_names` has. */
  predicate Resolvable(services: seq<seq<int>>, m: int, names: seq<string>)
    requires 0 <= m <= |services|
  {
    forall k, j :: 0 <= k < m && 0 <= j < |services[k]| ==> Decode(services[k][j]).1 < |names|
  }

  /** The rows of group `k`, numbered from 1. */
  function GroupRows(services: seq<seq<int>>, k: int, names: seq<string>, metric: string, date: string, time: string)
    : (r: seq<Row>)
    requires 0 <= k < |services| && forall j :: 0 <= j < |services[k]| ==> Decode(services[k][j]).1 < |names|
    ensures |r| == |services[k]|
  {
    seq(|services[k]|, j requires 0 <= j < |services[k]| => MakeRow(k + 1, services[k][j], names, metric, date, time))
  }

  /** The rows of the first `m` groups, in order. */
  function RowsOf(services: seq<seq<int>>, m: int, names: seq<string>, metric: string, date: string, time: string)
    : seq<Row>
    requires 0 <= m <= |services| && Resolvable(services, m, names)
  {
    if m == 0 then []
    else RowsOf(services, m - 1, names, metric, date, time) + GroupRows(services, m - 1, names, metric, date, time)
  }

  /** The number of members in the first `m` groups. */
  function MemberCount(services: seq<seq<int>>, m: int): nat
    requires 0 <= m <= |services|
  {
    if m == 0 then 0 else MemberCount(services, m - 1) + |services[m - 1]|
  }

  /** What `save_grouping_results` leaves committed: nothing when there is nothing to save
      or when a member names a microservice `service_names` lacks (the IndexError rolls the
      inserts back); otherwise the rows of the groups `zip` pairs with their members. */
  function Committed(groups: seq<seq<Series>>, services: seq<seq<int>>, names: seq<string>,
                     metric: string, date: string, time: string): seq<Row>
  {
    var m := Pipeline.Min2(|groups|, |services|);
    if m == 0 || !Resolvable(services, m, names) then []
    else RowsOf(services, m, names, metric, date, time)
  }

  /** The row of member `j` of group `k` sits after all rows of earlier groups and carries
      group number `k + 1` and the decoded name and role of that member. */
  predicate Placed(rows: seq<Row>, services: seq<seq<int>>, k: int, j: int, names: seq<string>,
                   metric: string, date: string, time: string)
    requires 0 <= k < |services| && 0 <= j < |services[k]| && Decode(services[k][j]).1 < |names|
  {
    MemberCount(services, k) + j < |rows| &&
    rows[MemberCount(services, k) + j] == MakeRow(k + 1, services[k][j], names, metric, date, time)
  }

  /** The committed table has one row per member, each where `Placed` says. */
  lemma {:induction false} RowsLayout(services: seq<seq<int>>, m: int, names: seq<string>,
                                      metric: string, date: string, time: string)
    requires 0 <= m <= |services| && Resolvable(services, m, names)
    ensures var rows := RowsOf(services, m, names, metric, date, time);
      |rows| == MemberCount(services, m) &&
      forall k, j :: 0 <= k < m && 0 <= j < |services[k]| ==> Placed(rows, services, k, j, names, metric, date, time)
    decreases m
  {
    if m > 0 {
      RowsLayout(services, m - 1, names, metric, date, time);
      var pre := RowsOf(services, m - 1, names, metric, date, time);
      var rows := RowsOf(services, m, names, metric, date, time);
      var last := GroupRows(services, m - 1, names, metric, date, time);
      assert rows == pre + last;
      forall k, j | 0 <= k < m && 0 <= j < |services[k]|
        ensures Placed(rows, services, k, j, names, metric, date, time)
      {
        if k < m - 1 {
          assert Placed(pre, services, k, j, names, metric, date, time);
          MemberCountGrow(services, k + 1, m - 1);
          assert rows[MemberCount(services, k) + j] == pre[MemberCount(services, k) + j];
        } else {
          assert rows[|pre| + j] == last[j];
        }
      }
    }
  }

  lemma {:induction false} MemberCountGrow(services: seq<seq<int>>, a: int, b: int)
    requires 0 <= a <= b <= |services|
    ensures MemberCount(services, a) <= MemberCount(services, b)
    decreases b - a
  {
    if a < b {
      MemberCountGrow(services, a, b - 1);
    }
  }

  /** `save_grouping_results` commits nothing when either list is empty or a member cannot
      be resolved, and otherwise exactly one row per member of the groups `zip` pairs. */
  lemma CommittedCount(groups: seq<seq<Series>>, services: seq<seq<int>>, names: seq<string>,
                       metric: string, date: string, time: string)
    ensures var m := Pipeline.Min2(|groups|, |services|);
      |Committed(groups, services, names, metric, date, time)| ==
        if m == 0 || !Resolvable(services, m, names) then 0 else MemberCount(services, m)
  {
    var m := Pipeline.Min2(|groups|, |services|);
    if m > 0 && Resolvable(services, m, names) {
      RowsLayout(services, m, names, metric, date, time);
    }
  }

  /** `save_grouping_results`: walk the groups `zip` pairs with their member lists, insert
      one row per member and count them; a member naming a microservice `service_names`
      lacks raises, and the rollback leaves nothing saved. */
  method SaveGroupingResults(groups: seq<seq<Series>>, services: seq<seq<int>>, names: seq<string>,
                             metric: string, date: string, time: string)
    returns (count: nat, rows: seq<Row>)
    ensures rows == Committed(groups, services, names, metric, date, time) && count == |rows|
  {
    if |groups| == 0 || |services| == 0 {
      return 0, [];
    }
    var m := Pipeline.Min2(|groups|, |services|);
    var pending: seq<Row> := [];
    count := 0;
    for k := 0 to m
      invariant Resolvable(services, k, names)
      invariant pending == RowsOf(services, k, names, metric, date, time) && count == |pending|
    {
      var ix := services[k];
      var j := 0;
      while j < |ix|
        invariant 0 <= j <= |ix|
        invariant forall jj :: 0 <= jj < j ==> Decode(ix[jj]).1 < |names|
        invariant pending == RowsOf(services, k, names, metric, date, time) +
          seq(j, jj requires 0 <= jj < j => MakeRow(k + 1, ix[jj], names, metric, date, time))
        invariant count == |pending|
      {
        var d := Decode(ix[j]);
        if d.1 >= |names| {
          assert !Resolvable(services, m, names);
          return 0, [];
        }
        pending := pending + [Row(k + 1, names[d.1], date, time, metric, RoleName(d.0))];
        count := count + 1;
        j := j + 1;
      }
      assert Resolvable(services, k + 1, names);
    }
    rows := pending;
  }
}
