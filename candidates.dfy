/** Candidate groups of one size (`generate_stable_groups`) and the availability test
    the greedy acceptance applies to them (`is_group_available`). */
module Candidates {
  import opened SeqUtil
  import opened Stats

  // ---------------------------------------------------------------------------
  // itertools.combinations

  /** Every index list in `cs`, with `x` put in front. */
  function Prefix(x: int, cs: seq<seq<int>>): (r: seq<seq<int>>)
    ensures |r| == |cs|
    ensures forall j :: 0 <= j < |cs| ==> r[j] == [x] + cs[j]
  {
    seq(|cs|, j requires 0 <= j < |cs| => [x] + cs[j])
  }

  /** The `k`-element combinations of `lo, ..., m - 1`, each in increasing order,
      listed in the lexicographic order `itertools.combinations` emits them in. */
  function CombosFrom(lo: nat, m: nat, k: nat): seq<seq<int>>
    decreases m - lo + k
  {
    if k == 0 then [[]]
    else if lo >= m then []
    else Prefix(lo, CombosFrom(lo + 1, m, k - 1)) + CombosFrom(lo + 1, m, k)
  }

  /** `combinations(range(m), k)` */
  function Combinations(m: nat, k: nat): seq<seq<int>>
  {
    CombosFrom(0, m, k)
  }

  predicate Increasing(c: seq<int>)
  {
    forall i, j :: 0 <= i < j < |c| ==> c[i] < c[j]
  }

  /** Every entry of `c` lies in `lo .. m - 1`. */
  predicate Within(c: seq<int>, lo: int, m: int)
  {
    forall x :: x in c ==> lo <= x < m
  }

  lemma CombosUnfold(lo: nat, m: nat, k: nat)
    requires k > 0 && lo < m
    ensures CombosFrom(lo, m, k) == Prefix(lo, CombosFrom(lo + 1, m, k - 1)) + CombosFrom(lo + 1, m, k)
  {
  }

  /** A list in `Prefix(x, cs)` is `x` followed by some list of `cs`. */
  lemma FromPrefix(x: int, cs: seq<seq<int>>, c: seq<int>) returns (t: seq<int>)
    requires c in Prefix(x, cs)
    ensures t in cs && c == [x] + t
  {
    var j :| 0 <= j < |cs| && Prefix(x, cs)[j] == c;
    t := cs[j];
  }

  lemma InPrefix(x: int, cs: seq<seq<int>>, t: seq<int>)
    requires t in cs
    ensures [x] + t in Prefix(x, cs)
  {
    var j :| 0 <= j < |cs| && cs[j] == t;
    assert Prefix(x, cs)[j] == [x] + t;
  }

  lemma InConcat(c: seq<int>, a: seq<seq<int>>, b: seq<seq<int>>)
    ensures c in a + b <==> c in a || c in b
  {
  }

  /** Putting `lo` in front of an increasing list above it keeps it increasing. */
  lemma ConsIncreasing(lo: int, t: seq<int>, m: int)
    requires lo < m && Increasing(t) && Within(t, lo + 1, m)
    ensures Increasing([lo] + t) && Within([lo] + t, lo, m)
  {
    var c := [lo] + t;
    forall a, b | 0 <= a < b < |c| ensures c[a] < c[b] {
      assert c[b] == t[b - 1] && t[b - 1] in t;
      if a > 0 {
        assert c[a] == t[a - 1];
      }
    }
    forall x | x in c ensures lo <= x < m {
      if x != lo {
        assert x in t;
      }
    }
  }

  /** Each listed combination has `k` increasing entries drawn from `lo .. m - 1`. */
  lemma {:induction false} CombosSound(lo: nat, m: nat, k: nat, c: seq<int>)
    requires c in CombosFrom(lo, m, k)
    ensures |c| == k && Increasing(c) && Within(c, lo, m)
    decreases m - lo + k
  {
    if k > 0 && lo < m {
      var head := CombosFrom(lo + 1, m, k - 1);
      var rest := CombosFrom(lo + 1, m, k);
      CombosUnfold(lo, m, k);
      InConcat(c, Prefix(lo, head), rest);
      if c in rest {
        CombosSound(lo + 1, m, k, c);
      } else {
        var t := FromPrefix(lo, head, c);
        CombosSound(lo + 1, m, k - 1, t);
        ConsIncreasing(lo, t, m);
      }
    }
  }

  /** An increasing list is its first entry followed by an increasing list of larger ones. */
  lemma SplitIncreasing(c: seq<int>, lo: int, m: int)
    requires |c| > 0 && Increasing(c) && Within(c, lo, m)
    ensures lo <= c[0] < m
    ensures Increasing(c[1..]) && Within(c[1..], c[0] + 1, m)
    ensures forall x :: x in c ==> c[0] <= x
  {
    assert c[0] in c;
    var t := c[1..];
    forall x | x in t ensures c[0] + 1 <= x < m {
      var i :| 0 <= i < |t| && t[i] == x;
      assert c[i + 1] == x && c[i + 1] in c;
    }
    forall a, b | 0 <= a < b < |t| ensures t[a] < t[b] {
      assert t[a] == c[a + 1] && t[b] == c[b + 1];
    }
    forall x | x in c ensures c[0] <= x {
      var i :| 0 <= i < |c| && c[i] == x;
    }
  }

  /** Every increasing `k`-element list drawn from `lo .. m - 1` is listed. */
  lemma {:induction false} CombosComplete(lo: nat, m: nat, k: nat, c: seq<int>)
    requires |c| == k && Increasing(c) && Within(c, lo, m)
    ensures c in CombosFrom(lo, m, k)
    decreases m - lo + k
  {
    if k > 0 {
      SplitIncreasing(c, lo, m);
      var head := CombosFrom(lo + 1, m, k - 1);
      var rest := CombosFrom(lo + 1, m, k);
      CombosUnfold(lo, m, k);
      InConcat(c, Prefix(lo, head), rest);
      if c[0] == lo {
        CombosComplete(lo + 1, m, k - 1, c[1..]);
        InPrefix(lo, head, c[1..]);
        assert [lo] + c[1..] == c;
      } else {
        assert Within(c, lo + 1, m);
        CombosComplete(lo + 1, m, k, c);
      }
    }
  }

  /** `combinations(range(m), k)` lists exactly the increasing `k`-element lists below `m`. */
  lemma CombinationsExact(m: nat, k: nat, c: seq<int>)
    ensures c in Combinations(m, k) <==> |c| == k && Increasing(c) && Within(c, 0, m)
  {
    if c in Combinations(m, k) {
      CombosSound(0, m, k, c);
    }
    if |c| == k && Increasing(c) && Within(c, 0, m) {
      CombosComplete(0, m, k, c);
    }
  }

  // ---------------------------------------------------------------------------
  // The candidates of one size

  /** Every series has the same, non-zero number of slots. */
  predicate WellFormed(series: seq<Series>)
  {
    forall k :: 0 <= k < |series| ==> |series[k]| == |series[0]| > 0
  }

  /** `[xs[i] for i in positions]`: the indices of `series` that a combination of
      positions into the available list denotes (`actual_indices`). */
  function Actual(xs: seq<int>, positions: seq<int>): (r: seq<int>)
    requires Within(positions, 0, |xs|)
    ensures |r| == |positions|
  {
    seq(|positions|, j requires 0 <= j < |positions| => (assert positions[j] in positions; xs[positions[j]]))
  }

  /** `[microservices[idx] for idx in indices]`: the series a group of indices denotes. */
  function Pick(series: seq<Series>, indices: seq<int>): (r: seq<Series>)
    requires Within(indices, 0, |series|)
    ensures |r| == |indices|
  {
    seq(|indices|, j requires 0 <= j < |indices| => (assert indices[j] in indices; series[indices[j]]))
  }

  /** The tuple `(group, actual_indices, cv)`; `key` is the signed square of the finite CV. */
  datatype Candidate = Candidate(group: seq<Series>, indices: seq<int>, key: real)

  /** What a combination needs to be evaluated: `size` positions into `avail`, whose
      entries are indices of `series`. */
  predicate Evaluable(series: seq<Series>, avail: seq<int>, c: seq<int>)
  {
    WellFormed(series) && Within(avail, 0, |series|) && |c| > 0 && Within(c, 0, |avail|)
  }

  lemma PickWithin(series: seq<Series>, avail: seq<int>, c: seq<int>)
    requires Evaluable(series, avail, c)
    ensures Within(Actual(avail, c), 0, |series|)
    ensures Shaped(Pick(series, Actual(avail, c))) && |Pick(series, Actual(avail, c))[0]| > 0
  {
    var ix := Actual(avail, c);
    forall x | x in ix ensures 0 <= x < |series| {
      var j :| 0 <= j < |ix| && ix[j] == x;
      assert c[j] in c;
      assert avail[c[j]] in avail;
    }
    var g := Pick(series, ix);
    assert ix[0] in ix;
    forall k | 0 <= k < |g| ensures |g[k]| >= |g[0]| {
      assert ix[k] in ix;
    }
  }

  /** The group a combination denotes, and whether its CV is below the threshold. */
  predicate Qualifies(series: seq<Series>, avail: seq<int>, c: seq<int>, threshold: real)
    requires Evaluable(series, avail, c)
  {
    PickWithin(series, avail, c);
    Below(Stability(Pick(series, Actual(avail, c))), threshold)
  }

  function CandidateOf(series: seq<Series>, avail: seq<int>, c: seq<int>, threshold: real): Candidate
    requires Evaluable(series, avail, c) && Qualifies(series, avail, c, threshold)
  {
    PickWithin(series, avail, c);
    var ix := Actual(avail, c);
    Candidate(Pick(series, ix), ix, Stability(Pick(series, ix)).key)
  }

  predicate AllEvaluable(series: seq<Series>, avail: seq<int>, combos: seq<seq<int>>)
  {
    forall c :: c in combos ==> Evaluable(series, avail, c)
  }

  lemma CombosEvaluable(series: seq<Series>, avail: seq<int>, size: nat)
    requires WellFormed(series) && Within(avail, 0, |series|) && size > 0
    ensures AllEvaluable(series, avail, Combinations(|avail|, size))
  {
    forall c | c in Combinations(|avail|, size) ensures Evaluable(series, avail, c) {
      CombosSound(0, |avail|, size, c);
    }
  }

  /** The candidate list the generation loop builds: combinations in order, kept when
      their CV is below the threshold. */
  function Qualify(series: seq<Series>, avail: seq<int>, combos: seq<seq<int>>, threshold: real): seq<Candidate>
    requires AllEvaluable(series, avail, combos)
  {
    if |combos| == 0 then []
    else
      var prev := Qualify(series, avail, combos[..|combos| - 1], threshold);
      var c := combos[|combos| - 1];
      if Qualifies(series, avail, c, threshold) then prev + [CandidateOf(series, avail, c, threshold)]
      else prev
  }

  /** A candidate is kept exactly when some combination qualifies and denotes it. */
  lemma {:induction false} QualifyMembers(series: seq<Series>, avail: seq<int>, combos: seq<seq<int>>, threshold: real, x: Candidate)
    requires AllEvaluable(series, avail, combos)
    ensures x in Qualify(series, avail, combos, threshold) <==>
      exists c :: c in combos && Evaluable(series, avail, c) && Qualifies(series, avail, c, threshold) &&
        x == CandidateOf(series, avail, c, threshold)
  {
    if |combos| > 0 {
      var init := combos[..|combos| - 1];
      QualifyMembers(series, avail, init, threshold, x);
      assert forall c :: c in combos <==> c in init || c == combos[|combos| - 1];
    }
  }

  // ---------------------------------------------------------------------------
  // sorted(candidates, key=cv): a stable sort

  /** Puts `x` before the first entry whose CV is not smaller. */
  function Insert(x: Candidate, s: seq<Candidate>): (r: seq<Candidate>)
    ensures |r| == |s| + 1
  {
    if |s| == 0 then [x]
    else if s[0].key >= x.key then [x] + s
    else [s[0]] + Insert(x, s[1..])
  }

  /** Insertion sort by CV, ascending. */
  function SortByCv(s: seq<Candidate>): (r: seq<Candidate>)
    ensures |r| == |s|
  {
    if |s| == 0 then [] else Insert(s[0], SortByCv(s[1..]))
  }

  predicate SortedByCv(s: seq<Candidate>)
  {
    forall i, j :: 0 <= i < j < |s| ==> s[i].key <= s[j].key
  }

  /** The entries whose CV is `v`, in order. */
  function WithKey(s: seq<Candidate>, v: real): seq<Candidate>
  {
    if |s| == 0 then [] else (if s[0].key == v then [s[0]] else []) + WithKey(s[1..], v)
  }

  lemma {:induction false} InsertMultiset(x: Candidate, s: seq<Candidate>)
    ensures multiset(Insert(x, s)) == multiset(s) + multiset{x}
  {
    if |s| > 0 && s[0].key < x.key {
      InsertMultiset(x, s[1..]);
      assert s == [s[0]] + s[1..];
    }
  }

  lemma {:induction false} InsertSorted(x: Candidate, s: seq<Candidate>)
    requires SortedByCv(s)
    ensures SortedByCv(Insert(x, s))
  {
    if |s| > 0 && s[0].key < x.key {
      var t := s[1..];
      assert SortedByCv(t);
      InsertSorted(x, t);
      InsertMultiset(x, t);
      var r := Insert(x, s);
      assert r == [s[0]] + Insert(x, t);
      forall j | 0 < j < |r| ensures s[0].key <= r[j].key {
        assert r[j] == Insert(x, t)[j - 1];
        assert r[j] in multiset(Insert(x, t));
        if r[j] != x {
          assert r[j] in multiset(t);
          var i :| 0 <= i < |t| && t[i] == r[j];
          assert s[i + 1] == r[j];
        }
      }
    }
  }

  lemma {:induction false} InsertWithKey(x: Candidate, s: seq<Candidate>, v: real)
    ensures WithKey(Insert(x, s), v) == (if x.key == v then [x] else []) + WithKey(s, v)
  {
    if |s| > 0 {
      var r := Insert(x, s);
      assert WithKey(s, v) == (if s[0].key == v then [s[0]] else []) + WithKey(s[1..], v);
      if s[0].key >= x.key {
        assert r[0] == x && r[1..] == s;
      } else {
        InsertWithKey(x, s[1..], v);
        assert r[0] == s[0] && r[1..] == Insert(x, s[1..]);
      }
    }
  }

  /** Python's `sorted` by CV: ordered, a permutation, and stable (the candidates of
      any one CV keep their order). */
  lemma {:induction false} SortByCvProperties(s: seq<Candidate>)
    ensures SortedByCv(SortByCv(s))
    ensures multiset(SortByCv(s)) == multiset(s)
    ensures forall v :: WithKey(SortByCv(s), v) == WithKey(s, v)
  {
    if |s| > 0 {
      SortByCvProperties(s[1..]);
      InsertMultiset(s[0], SortByCv(s[1..]));
      InsertSorted(s[0], SortByCv(s[1..]));
      assert s == [s[0]] + s[1..];
      forall v ensures WithKey(SortByCv(s), v) == WithKey(s, v) {
        InsertWithKey(s[0], SortByCv(s[1..]), v);
        assert WithKey(s, v) == (if s[0].key == v then [s[0]] else []) + WithKey(s[1..], v);
      }
    }
  }

  /** What `generate_stable_groups` returns. */
  function StableCandidates(series: seq<Series>, avail: seq<int>, size: nat, threshold: real): seq<Candidate>
    requires WellFormed(series) && Within(avail, 0, |series|) && size > 0
  {
    CombosEvaluable(series, avail, size);
    SortByCv(Qualify(series, avail, Combinations(|avail|, size), threshold))
  }

  /** `generate_stable_groups`: every combination of `size` available indices, evaluated
      in itertools order, kept when its CV is below the threshold, then stably sorted. */
  method GenerateStableGroups(avail: seq<int>, series: seq<Series>, size: nat, threshold: real)
    returns (cands: seq<Candidate>)
    requires WellFormed(series) && Within(avail, 0, |series|) && size > 0
    ensures cands == StableCandidates(series, avail, size, threshold)
  {
    var combos := Combinations(|avail|, size);
    CombosEvaluable(series, avail, size);
    var kept: seq<Candidate> := [];
    var i := 0;
    while i < |combos|
      invariant 0 <= i <= |combos|
      invariant kept == Qualify(series, avail, combos[..i], threshold)
    {
      var c := combos[i];
      assert c in combos;
      PickWithin(series, avail, c);
      var ix := Actual(avail, c);
      var group := Pick(series, ix);
      var cv := CalculateStability(group);
      if Below(cv, threshold) {
        kept := kept + [Candidate(group, ix, cv.key)];
      }
      assert combos[..i + 1][..i] == combos[..i];
      i := i + 1;
    }
    assert combos[..|combos|] == combos;
    cands := SortByCv(kept);
  }

  /** What a generated candidate is: a qualifying combination of `size` distinct available
      indices, its group, and its CV; and every qualifying combination is generated. */
  lemma StableCandidatesExact(series: seq<Series>, avail: seq<int>, size: nat, threshold: real, x: Candidate)
    requires WellFormed(series) && Within(avail, 0, |series|) && size > 0
    ensures SortedByCv(StableCandidates(series, avail, size, threshold))
    ensures x in StableCandidates(series, avail, size, threshold) <==>
      exists c :: c in Combinations(|avail|, size) && Evaluable(series, avail, c) && Qualifies(series, avail, c, threshold) &&
        x == CandidateOf(series, avail, c, threshold)
  {
    CombosEvaluable(series, avail, size);
    var q := Qualify(series, avail, Combinations(|avail|, size), threshold);
    SortByCvProperties(q);
    QualifyMembers(series, avail, Combinations(|avail|, size), threshold, x);
    assert x in SortByCv(q) <==> x in multiset(SortByCv(q));
  }

  /** Every generated candidate has `size` distinct available indices, denotes their group,
      and has a CV below the threshold. */
  lemma CandidateShape(series: seq<Series>, avail: seq<int>, size: nat, threshold: real, x: Candidate)
    requires WellFormed(series) && Within(avail, 0, |series|) && size > 0
    requires x in StableCandidates(series, avail, size, threshold)
    ensures |x.indices| == size && (Distinct(avail) ==> Distinct(x.indices))
    ensures forall i :: i in x.indices ==> i in avail
    ensures Within(x.indices, 0, |series|) && x.group == Pick(series, x.indices)
    ensures Shaped(x.group) && |x.group[0]| > 0 && Below(Stability(x.group), threshold)
    ensures Stability(x.group) == Finite(x.key)
  {
    StableCandidatesExact(series, avail, size, threshold, x);
    var c :| c in Combinations(|avail|, size) && Evaluable(series, avail, c) && Qualifies(series, avail, c, threshold) &&
      x == CandidateOf(series, avail, c, threshold);
    CombinationsExact(|avail|, size, c);
    PickWithin(series, avail, c);
    forall i | i in x.indices ensures i in avail {
      var j :| 0 <= j < |x.indices| && x.indices[j] == i;
      assert c[j] in c;
    }
    if Distinct(avail) {
      forall i, j | 0 <= i < j < |x.indices| ensures x.indices[i] != x.indices[j] {
        assert c[i] in c && c[j] in c;
      }
    }
  }

  /** `is_group_available`: no index of the group is already used. */
  function IsGroupAvailable(indices: seq<int>, used: set<int>): (r: bool)
    ensures r <==> forall i :: i in indices ==> i !in used
  {
    if |indices| == 0 then true
    else
      assert forall i :: i in indices <==> i == indices[0] || i in indices[1..];
      indices[0] !in used && IsGroupAvailable(indices[1..], used)
  }
}
