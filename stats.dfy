/** The stability metric: per-slot load sums of a group of load series, and the
    coefficient of variation (population standard deviation over mean, in percent)
    of those sums. The same two routines appear in group_finder.py and main.py.

    The coefficient of variation needs a square root. It is represented here without one:
    a finite CV `cv` is stored as its signed square `cv * |cv|`, which is
    `10000 * variance / (mean * |mean|)`. The map x |-> x * |x| is strictly increasing,
    so every comparison the source makes between CVs, or between a CV and a threshold,
    is decided exactly on these keys (see `SignedSquareMonotone` and `CvKeyIsSignedSquare`). */
module Stats {

  /** One load sample per time slot. */
  type Series = seq<real>

  /** Python's `sum`: left-to-right total. */
  function Sum(s: seq<real>): real
  {
    if |s| == 0 then 0.0 else Sum(s[..|s| - 1]) + s[|s| - 1]
  }

  function Mean(s: seq<real>): real
    requires |s| > 0
  {
    Sum(s) / (|s| as real)
  }

  /** x squared. Kept as a function so that the solver treats squares as terms. */
  function Sq(x: real): real { x * x }

  /** Sum of squared deviations from `m`. */
  function SqDev(s: seq<real>, m: real): (r: real)
    ensures r >= 0.0
  {
    if |s| == 0 then 0.0
    else
      var d := s[|s| - 1] - m;
      SquareNonNegative(d);
      SqDev(s[..|s| - 1], m) + Sq(d)
  }

  lemma SquareNonNegative(x: real)
    ensures Sq(x) >= 0.0
  {
    if x != 0.0 {
      SquarePositive(x);
    }
  }

  lemma SquarePositive(x: real)
    requires x != 0.0
    ensures Sq(x) > 0.0
  {
    if x > 0.0 {
      SquareLess(0.0, x);
    } else {
      SquareLess(0.0, -x);
      assert Sq(x) == Sq(-x);
    }
  }

  /** Squaring is strictly increasing on the non-negative reals. */
  lemma SquareLess(a: real, b: real)
    requires 0.0 <= a < b
    ensures Sq(a) < Sq(b)
  {
    var d := b - a;
    assert b * b == (a + d) * (a + d) == a * a + 2.0 * a * d + d * d;
    assert d * d > 0.0;
    assert a * d >= 0.0;
  }

  /** Population variance (numpy's default, and the source's `/ len(slot_sums)`). */
  function Variance(s: seq<real>): (r: real)
    requires |s| > 0
    ensures r >= 0.0
  {
    var d := SqDev(s, Mean(s));
    DivNonNegative(d, |s| as real);
    d / (|s| as real)
  }

  lemma DivNonNegative(x: real, y: real)
    requires x >= 0.0 && y > 0.0
    ensures x / y >= 0.0
  {
  }

  function Abs(x: real): real { if x < 0.0 then -x else x }

  /** x * |x|: strictly increasing, so it preserves and reflects `<`. */
  function SignedSquare(x: real): real { x * Abs(x) }

  lemma SignedSquareMonotone(a: real, b: real)
    ensures a < b <==> SignedSquare(a) < SignedSquare(b)
  {
    if a < b {
      SignedSquareStrict(a, b);
    } else if b < a {
      SignedSquareStrict(b, a);
    }
  }

  lemma SignedSquareStrict(a: real, b: real)
    requires a < b
    ensures SignedSquare(a) < SignedSquare(b)
  {
    if 0.0 <= a {
      SquareLess(a, b);
      assert SignedSquare(a) == Sq(a) && SignedSquare(b) == Sq(b);
    } else if b <= 0.0 {
      SquareLess(-b, -a);
      assert SignedSquare(a) == -Sq(-a) && SignedSquare(b) == -Sq(-b);
    } else {
      SquarePositive(a);
      SquarePositive(b);
      assert SignedSquare(a) == -Sq(-a) && SignedSquare(b) == Sq(b);
      assert Sq(-a) == Sq(a);
    }
  }

  /** Every series in the group has at least `t + 1` slots. */
  predicate HasSlot(group: seq<Series>, t: nat)
  {
    forall k :: 0 <= k < |group| ==> t < |group[k]|
  }

  /** What `calculate_stability` and `calculate_load_sum` need of a non-empty group:
      the first series fixes the slot count, and every series must have that many slots
      (a shorter one raises IndexError; extra slots of a longer one are ignored). */
  predicate Shaped(group: seq<Series>)
  {
    |group| > 0 && forall k :: 0 <= k < |group| ==> |group[k]| >= |group[0]|
  }

  /** Every series has exactly `slots` entries. */
  predicate Uniform(series: seq<Series>, slots: nat)
  {
    forall k :: 0 <= k < |series| ==> |series[k]| == slots
  }

  /** Total of slot `t` over the group, accumulated service by service. */
  function SlotTotal(group: seq<Series>, t: nat): real
    requires HasSlot(group, t)
  {
    if |group| == 0 then 0.0 else SlotTotal(group[..|group| - 1], t) + group[|group| - 1][t]
  }

  /** The per-slot sum vector: empty for an empty group, otherwise one entry per slot
      of the first series. */
  function LoadSum(group: seq<Series>): (r: Series)
    requires group == [] || Shaped(group)
    ensures |group| == 0 ==> r == []
    ensures |group| > 0 ==> |r| == |group[0]|
  {
    if |group| == 0 then []
    else seq(|group[0]|, t requires 0 <= t < |group[0]| => SlotTotal(group, t))
  }

  /** The coefficient of variation, as `Infinite` or the signed square of its finite value. */
  datatype Cv = Infinite | Finite(key: real)

  /** The CV of the group's slot sums: infinite exactly when their mean is zero. */
  function Stability(group: seq<Series>): Cv
    requires Shaped(group) && |group[0]| > 0
  {
    CvOf(LoadSum(group))
  }

  /** The CV of a slot-sum vector. */
  function CvOf(slots: seq<real>): Cv
    requires |slots| > 0
  {
    if Mean(slots) == 0.0 then Infinite else Finite(CvKey(Mean(slots), Variance(slots)))
  }

  /** The signed square of `100 * sqrt(variance) / mean`. */
  function CvKey(mean: real, variance: real): real
    requires mean != 0.0
  {
    10000.0 * variance / (mean * Abs(mean))
  }

  /** `cv < threshold`; an infinite CV is below no threshold. */
  predicate Below(cv: Cv, threshold: real)
  {
    cv.Finite? && cv.key < SignedSquare(threshold)
  }

  // ---------------------------------------------------------------------------
  // The loops of calculate_load_sum and calculate_stability

  /** `calculate_load_sum`: a slot-sum buffer filled service by service. */
  method CalculateLoadSum(services: seq<Series>) returns (sums: Series)
    requires services == [] || Shaped(services)
    ensures sums == LoadSum(services)
  {
    if |services| == 0 {
      return [];
    }
    var slots := |services[0]|;
    var buf := new real[slots](_ => 0.0);
    var i := 0;
    while i < |services|
      invariant 0 <= i <= |services|
      invariant forall t :: 0 <= t < slots ==> buf[t] == SlotTotal(services[..i], t)
    {
      var service := services[i];
      var t := 0;
      while t < slots
        invariant 0 <= t <= slots
        invariant forall u :: 0 <= u < t ==> buf[u] == SlotTotal(services[..i + 1], u)
        invariant forall u :: t <= u < slots ==> buf[u] == SlotTotal(services[..i], u)
      {
        assert services[..i + 1][..i] == services[..i];
        buf[t] := buf[t] + service[t];
        t := t + 1;
      }
      i := i + 1;
    }
    assert services[..|services|] == services;
    sums := buf[..];
  }

  /** `calculate_stability`: slot sums, then mean; infinite for a zero mean, otherwise the
      population variance over the mean. */
  method CalculateStability(group: seq<Series>) returns (cv: Cv)
    requires Shaped(group) && |group[0]| > 0
    ensures cv == Stability(group)
  {
    var slots := CalculateLoadSum(group);
    var mean := Mean(slots);
    if mean == 0.0 {
      return Infinite;
    }
    var variance := Variance(slots);
    cv := Finite(CvKey(mean, variance));
  }

  // ---------------------------------------------------------------------------
  // What the metric means

  /** The key is the signed square of `100 * sigma / mean` for the non-negative square root
      sigma of the variance, whatever square root is used. */
  lemma CvKeyIsSignedSquare(group: seq<Series>, sigma: real)
    requires Shaped(group) && |group[0]| > 0
    requires sigma >= 0.0 && Sq(sigma) == Variance(LoadSum(group))
    requires Mean(LoadSum(group)) != 0.0
    ensures Stability(group) == Finite(SignedSquare(100.0 * sigma / Mean(LoadSum(group))))
  {
    var m, v := Mean(LoadSum(group)), Variance(LoadSum(group));
    KeyArithmetic(m, sigma, v);
  }

  lemma KeyArithmetic(m: real, sigma: real, v: real)
    requires m != 0.0 && sigma >= 0.0 && Sq(sigma) == v
    ensures SignedSquare(100.0 * sigma / m) == CvKey(m, v)
  {
    var c := 100.0 * sigma / m;
    var p := m * Abs(m);
    assert c * m == 100.0 * sigma;
    if m > 0.0 {
      assert Abs(c) == c;
      assert Abs(c) * Abs(m) == 100.0 * sigma;
    } else {
      assert Abs(m) == -m;
      assert c <= 0.0;
      assert Abs(c) == -c;
      assert Abs(c) * Abs(m) == 100.0 * sigma;
    }
    assert (c * Abs(c)) * p == (c * m) * (Abs(c) * Abs(m));
    assert (c * Abs(c)) * p == 10000.0 * v;
    assert p != 0.0;
  }

  /** A quotient is the one value that multiplies back to the dividend. */
  lemma DivUnique(y: real, z: real, m: real)
    requires m != 0.0 && y * m == z
    ensures y == z / m
  {
  }

  /** `x / m * c` and `c * x / m` are the same number. */
  lemma ScaleQuotient(x: real, m: real, c: real)
    requires m != 0.0
    ensures x / m * c == c * x / m
  {
    var q := x / m;
    assert q * m == x;
    assert (q * c) * m == c * (q * m);
    DivUnique(q * c, c * x, m);
  }

  /** Quotients by the same divisor add like their dividends. */
  lemma AddQuotients(p: real, q: real, k: real)
    requires k != 0.0
    ensures p / k + q / k == (p + q) / k
  {
    var a := p / k;
    var b := q / k;
    assert a * k == p && b * k == q;
    assert (a + b) * k == a * k + b * k;
    DivUnique(a + b, p + q, k);
  }

  /** Deciding `cv < threshold` on the key is exact: for the real CV value `c` that the key
      stands for, the source's comparison and `Below` agree. */
  lemma BelowIsExact(c: real, threshold: real)
    ensures Below(Finite(SignedSquare(c)), threshold) <==> c < threshold
  {
    SignedSquareMonotone(c, threshold);
  }

  lemma {:induction false} SqDevZero(s: seq<real>, m: real)
    ensures SqDev(s, m) == 0.0 <==> forall i :: 0 <= i < |s| ==> s[i] == m
    decreases |s|
  {
    if |s| > 0 {
      var s' := s[..|s| - 1];
      SqDevZero(s', m);
      var d := s[|s| - 1] - m;
      assert SqDev(s, m) == SqDev(s', m) + Sq(d);
      AddSquareZero(SqDev(s', m), d);
      assert forall i :: 0 <= i < |s'| ==> s'[i] == s[i];
    }
  }

  lemma AddSquareZero(y: real, d: real)
    requires y >= 0.0
    ensures y + Sq(d) == 0.0 <==> y == 0.0 && d == 0.0
  {
    if d != 0.0 {
      SquarePositive(d);
    }
  }

  lemma {:induction false} SumConstant(s: seq<real>, c: real)
    requires forall i :: 0 <= i < |s| ==> s[i] == c
    ensures Sum(s) == (|s| as real) * c
    decreases |s|
  {
    if |s| > 0 {
      SumConstant(s[..|s| - 1], c);
    }
  }

  /** Infinite exactly when the slot sums have mean zero; zero exactly when the load is
      perfectly flat (every slot sum equal) with a non-zero level; negative exactly when
      the mean is negative and the sums are not flat. */
  lemma StabilityCases(group: seq<Series>)
    requires Shaped(group) && |group[0]| > 0
    ensures Stability(group).Infinite? <==> Sum(LoadSum(group)) == 0.0
    ensures Stability(group) == Finite(0.0) <==>
      Sum(LoadSum(group)) != 0.0 &&
      forall t, u :: 0 <= t < u < |group[0]| ==> LoadSum(group)[t] == LoadSum(group)[u]
    ensures Stability(group).Finite? && Stability(group).key < 0.0 <==>
      Sum(LoadSum(group)) < 0.0 && exists t :: 0 < t < |group[0]| && LoadSum(group)[t] != LoadSum(group)[0]
  {
    CvOfCases(LoadSum(group));
  }

  /** All entries equal: the load is level. */
  predicate Level(s: seq<real>)
  {
    forall t, u :: 0 <= t < u < |s| ==> s[t] == s[u]
  }

  /** `CvOf` by cases on the slot sums. */
  lemma CvOfCases(slots: seq<real>)
    requires |slots| > 0
    ensures CvOf(slots).Infinite? <==> Sum(slots) == 0.0
    ensures CvOf(slots) == Finite(0.0) <==> Sum(slots) != 0.0 && Level(slots)
    ensures CvOf(slots).Finite? && CvOf(slots).key < 0.0 <==>
      Sum(slots) < 0.0 && exists t :: 0 < t < |slots| && slots[t] != slots[0]
  {
    var m := Mean(slots);
    MeanSign(slots);
    LevelIffNoSpread(slots);
    NotLevelWitness(slots);
    if m != 0.0 {
      KeySign(m, Variance(slots));
    }
  }

  lemma MeanSign(s: seq<real>)
    requires |s| > 0
    ensures Mean(s) == 0.0 <==> Sum(s) == 0.0
    ensures Mean(s) < 0.0 <==> Sum(s) < 0.0
  {
  }

  /** A flat vector has zero variance, and only a flat one. */
  lemma LevelIffNoSpread(slots: seq<real>)
    requires |slots| > 0
    ensures Level(slots) <==> Variance(slots) == 0.0
  {
    var m := Mean(slots);
    SqDevZero(slots, m);
    if Level(slots) {
      assert forall i :: 0 <= i < |slots| ==> slots[i] == slots[0];
      SumConstant(slots, slots[0]);
      assert m == slots[0];
    } else {
      var t, u :| 0 <= t < u < |slots| && slots[t] != slots[u];
      assert !(slots[t] == m && slots[u] == m);
    }
    DivNonNegative(SqDev(slots, m), |slots| as real);
  }

  /** Not flat exactly when some entry differs from the first. */
  lemma NotLevelWitness(s: seq<real>)
    requires |s| > 0
    ensures !Level(s) <==> exists t :: 0 < t < |s| && s[t] != s[0]
  {
    if exists t :: 0 < t < |s| && s[t] != s[0] {
      var t :| 0 < t < |s| && s[t] != s[0];
      assert !(s[0] == s[t]);
    } else {
      assert forall t, u :: 0 <= t < u < |s| ==> s[t] == s[0] == s[u];
    }
  }

  /** The key's sign: zero exactly for zero variance, negative exactly for a negative mean
      with some variance. */
  lemma KeySign(m: real, v: real)
    requires m != 0.0 && v >= 0.0
    ensures CvKey(m, v) == 0.0 <==> v == 0.0
    ensures CvKey(m, v) < 0.0 <==> m < 0.0 && v > 0.0
  {
    if m > 0.0 {
      assert m * Abs(m) > 0.0;
      assert v > 0.0 ==> 10000.0 * v / (m * Abs(m)) > 0.0;
    } else {
      assert m * Abs(m) < 0.0;
      assert v > 0.0 ==> 10000.0 * v / (m * Abs(m)) < 0.0;
    }
  }

  /** Two series of one length sum slot by slot. */
  lemma LoadSumPair(a: Series, b: Series)
    requires |a| == |b|
    ensures LoadSum([a, b]) == seq(|a|, t requires 0 <= t < |a| => a[t] + b[t])
  {
    var g := [a, b];
    assert g[..1] == [a] && [a][..0] == [];
    forall t | 0 <= t < |a| ensures LoadSum(g)[t] == a[t] + b[t] {
      assert SlotTotal(g, t) == SlotTotal([a], t) + b[t];
      assert SlotTotal([a], t) == SlotTotal([], t) + a[t];
    }
  }

  /** A single series is its own slot-sum vector. */
  lemma LoadSumSingleton(s: Series)
    ensures LoadSum([s]) == s
  {
    assert [s][..0] == [];
    forall t | 0 <= t < |s| ensures LoadSum([s])[t] == s[t] {
      assert SlotTotal([s], t) == SlotTotal([], t) + s[t];
    }
  }
}
