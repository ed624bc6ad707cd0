/** The multiple-knapsack heuristic of main.py: items (microservices) weighted by their
    mean load are sorted by value per weight, placed worst-fit into equal knapsacks, and
    then improved by pairwise swaps that lower the summed coefficient of variation.
    The square root behind the CV is the parameter `root`: nothing here depends on
    what it returns. */
module Knapsack {
  import opened SeqUtil
  import opened Stats
  import opened Candidates
  import Splitter
  import Pipeline

  // ---------------------------------------------------------------------------
  // Floats that may be infinite

  /** The floats this code produces: a finite real or `float('inf')`. */
  datatype Ext = Inf | Fin(v: real)

  /** `a + b`: infinite when either side is. */
  function Plus(a: Ext, b: Ext): Ext
  {
    if a.Inf? || b.Inf? then Inf else Fin(a.v + b.v)
  }

  /** `a < b`: infinity is below nothing, and every finite value is below it. */
  predicate Less(a: Ext, b: Ext)
  {
    a.Fin? && (b.Inf? || a.v < b.v)
  }

  /** `calculate_stability` of main.py: infinite when the slot sums average to zero,
      otherwise `root(variance) / mean * 100`. */
  function CvValue(group: seq<Series>, root: real -> real): Ext
    requires Shaped(group) && |group[0]| > 0
  {
    var slots := LoadSum(group);
    var mean := Mean(slots);
    if mean == 0.0 then Inf else Fin(root(Variance(slots)) / mean * 100.0)
  }

  /** main.py's CV and the grouping module's CV agree: both are infinite together, and
      when `root` returns the true square root of the variance, the finite value's signed
      square is the key that `Stats.Stability` compares. */
  lemma CvValueAgrees(group: seq<Series>, root: real -> real)
    requires Shaped(group) && |group[0]| > 0
    ensures CvValue(group, root).Inf? <==> Stability(group).Infinite?
    ensures var v := Variance(LoadSum(group));
      CvValue(group, root).Fin? && 0.0 <= root(v) && Sq(root(v)) == v ==>
        SignedSquare(CvValue(group, root).v) == Stability(group).key
  {
    var slots := LoadSum(group);
    var mean := Mean(slots);
    var v := Variance(slots);
    if mean != 0.0 && 0.0 <= root(v) && Sq(root(v)) == v {
      ScaledSquare(root(v), mean, v);
    }
  }

  lemma ScaledSquare(s: real, mean: real, v: real)
    requires mean != 0.0 && 0.0 <= s && Sq(s) == v
    ensures SignedSquare(s / mean * 100.0) == CvKey(mean, v)
  {
    ScaleQuotient(s, mean, 100.0);
    KeyArithmetic(mean, s, v);
  }

  /** The CV of the microservices whose indices a knapsack holds. */
  function GroupCv(ms: seq<Series>, c: seq<int>, root: real -> real): Ext
    requires WellFormed(ms) && |c| > 0 && Within(c, 0, |ms|)
  {
    assert forall k :: 0 <= k < |c| ==> c[k] in c;
    CvValue(Pick(ms, c), root)
  }

  // ---------------------------------------------------------------------------
  // Weights, values and the order of the items

  /** The weight of a microservice: `sum(service) / len(service)`. */
  function Weight(service: Series): real
    requires |service| > 0
  {
    Mean(service)
  }

  /** The value of a microservice: `inf` when its own CV is 0, otherwise `100 / cv`
      (which is 0 when the CV is infinite). */
  function Value(service: Series, root: real -> real): Ext
    requires |service| > 0
  {
    var s := CvValue([service], root);
    if s == Fin(0.0) then Inf else if s.Inf? then Fin(0.0) else Fin(100.0 / s.v)
  }

  /** The sort key `values[i] / weights[i] if weights[i] > 0 else inf`. */
  function Key(w: real, value: Ext): Ext
  {
    if w <= 0.0 || value.Inf? then Inf else Fin(value.v / w)
  }

  function Keys(weights: seq<real>, values: seq<Ext>): (r: seq<Ext>)
    requires |values| == |weights|
    ensures |r| == |weights|
  {
    seq(|weights|, i requires 0 <= i < |weights| => Key(weights[i], values[i]))
  }

  /** Item `a` precedes item `b` in the descending sort: a larger key, or an equal key and
      a smaller index (Python's sort is stable, also with `reverse=True`). */
  predicate Ahead(keys: seq<Ext>, a: int, b: int)
    requires 0 <= a < |keys| && 0 <= b < |keys|
  {
    Less(keys[b], keys[a]) || (keys[a] == keys[b] && a < b)
  }

  predicate SortedDesc(keys: seq<Ext>, s: seq<int>)
  {
    Within(s, 0, |keys|) &&
    forall i, j :: 0 <= i < j < |s| ==> s[i] in s && s[j] in s && Ahead(keys, s[i], s[j])
  }

  lemma AheadTransitive(keys: seq<Ext>, a: int, b: int, c: int)
    requires 0 <= a < |keys| && 0 <= b < |keys| && 0 <= c < |keys|
    requires Ahead(keys, a, b) && Ahead(keys, b, c)
    ensures Ahead(keys, a, c)
  {
  }

  /** Putting in front an item that precedes every item keeps the order. */
  lemma ConsSorted(keys: seq<Ext>, x: int, s: seq<int>)
    requires 0 <= x < |keys| && SortedDesc(keys, s)
    requires forall y :: y in s ==> 0 <= y < |keys| && Ahead(keys, x, y)
    ensures SortedDesc(keys, [x] + s)
  {
    var r := [x] + s;
    forall i, j | 0 <= i < j < |r| ensures r[i] in r && r[j] in r && Ahead(keys, r[i], r[j]) {
      assert r[j] == s[j - 1] && s[j - 1] in s;
      if i > 0 {
        assert r[i] == s[i - 1];
      }
    }
  }

  /** An item that is not ahead of another, distinct one comes after it. */
  lemma AheadTotal(keys: seq<Ext>, a: int, b: int)
    requires 0 <= a < |keys| && 0 <= b < |keys| && a != b && !Ahead(keys, a, b)
    ensures Ahead(keys, b, a)
  {
  }

  /** Place `x` in front of the first item it precedes. */
  function InsertItem(keys: seq<Ext>, x: int, s: seq<int>): (r: seq<int>)
    requires 0 <= x < |keys| && x !in s && SortedDesc(keys, s)
    ensures |r| == |s| + 1
    ensures forall y :: y in r <==> y == x || y in s
    ensures SortedDesc(keys, r)
    decreases |s|
  {
    if |s| == 0 then [x]
    else
      assert s[0] in s;
      if Ahead(keys, x, s[0]) then
      assert forall y :: y in s ==> 0 <= y < |keys| && Ahead(keys, x, y) by {
        forall y | y in s ensures 0 <= y < |keys| && Ahead(keys, x, y) {
          var k :| 0 <= k < |s| && s[k] == y;
          if k > 0 {
            AheadTransitive(keys, x, s[0], s[k]);
          }
        }
      }
      ConsSorted(keys, x, s);
      [x] + s
    else
      var t := InsertItem(keys, x, s[1..]);
      assert forall y :: y in s[1..] ==> y in s;
      assert forall y :: y in t ==> 0 <= y < |keys| && Ahead(keys, s[0], y) by {
        forall y | y in t ensures 0 <= y < |keys| && Ahead(keys, s[0], y) {
          if y == x {
            AheadTotal(keys, x, s[0]);
          } else {
            var k :| 0 <= k < |s[1..]| && s[1..][k] == y;
            assert s[0] in s && s[k + 1] in s && s[k + 1] == y;
          }
        }
      }
      ConsSorted(keys, s[0], t);
      [s[0]] + t
  }

  /** `items = list(range(n))` sorted by descending key: the one arrangement of 0..k-1
      in which every item precedes the items after it. */
  function SortItems(keys: seq<Ext>, k: nat): (r: seq<int>)
    requires k <= |keys|
    ensures |r| == k
    ensures forall y :: y in r <==> 0 <= y < k
    ensures SortedDesc(keys, r)
    ensures Distinct(r)
  {
    if k == 0 then [] else InsertItem(keys, k - 1, SortItems(keys, k - 1))
  }

  // ---------------------------------------------------------------------------
  // The first pass: worst fit

  lemma WithinPrefix(c: seq<int>, n: nat, lo: int, m: int)
    requires Within(c, lo, m) && n <= |c|
    ensures Within(c[..n], lo, m)
  {
    forall x | x in c[..n] ensures lo <= x < m {
      var k :| 0 <= k < n && c[..n][k] == x;
      assert c[k] in c;
    }
  }

  lemma WithinUpdate(c: seq<int>, a: int, y: int, lo: int, m: int)
    requires Within(c, lo, m) && 0 <= a < |c| && lo <= y < m
    ensures Within(c[a := y], lo, m)
  {
    var u := c[a := y];
    forall x | x in u ensures lo <= x < m {
      var k :| 0 <= k < |c| && u[k] == x;
      if k != a {
        assert c[k] in c;
      }
    }
  }

  /** Total weight of the items in one knapsack. */
  function Load(weights: seq<real>, c: seq<int>): real
    requires Within(c, 0, |weights|)
  {
    if |c| == 0 then 0.0
    else
      assert c[|c| - 1] in c;
      WithinPrefix(c, |c| - 1, 0, |weights|);
      Load(weights, c[..|c| - 1]) + weights[c[|c| - 1]]
  }

  /** The scan for the knapsack of an item of weight `w` over the first `j` knapsacks:
      -1 when it fits none, otherwise the one with the most room left, the first of them
      on ties. */
  function Choice(w: real, rem: seq<real>, j: nat): (b: int)
    requires j <= |rem|
    ensures -1 <= b < j
    ensures b == -1 <==> forall k :: 0 <= k < j ==> rem[k] < w
    ensures b != -1 ==> w <= rem[b]
    ensures b != -1 ==> forall k :: 0 <= k < j && w <= rem[k] ==> rem[k] <= rem[b]
    ensures b != -1 ==> forall k :: 0 <= k < b && w <= rem[k] ==> rem[k] < rem[b]
  {
    if j == 0 then -1
    else
      var b := Choice(w, rem, j - 1);
      if w <= rem[j - 1] && (b == -1 || rem[j - 1] > rem[b]) then j - 1 else b
  }

  /** The knapsacks (item indices) and the `remaining_capacities` list. */
  datatype State = State(knapsacks: seq<seq<int>>, remaining: seq<real>)

  /** One step of the first pass: add `item` to its worst-fit knapsack, if any. */
  function Place(weights: seq<real>, s: State, item: int): State
    requires 0 <= item < |weights| && |s.knapsacks| == |s.remaining|
  {
    var b := Choice(weights[item], s.remaining, |s.remaining|);
    if b == -1 then s
    else State(s.knapsacks[b := s.knapsacks[b] + [item]],
               s.remaining[b := s.remaining[b] - weights[item]])
  }

  /** The state after the first `k` items of `order`. */
  function FirstPass(weights: seq<real>, caps: seq<real>, order: seq<int>, k: nat): (r: State)
    requires k <= |order| && Within(order, 0, |weights|)
    ensures |r.knapsacks| == |caps| && |r.remaining| == |caps|
  {
    if k == 0 then State(seq(|caps|, _ => []), caps)
    else
      assert order[k - 1] in order;
      Place(weights, FirstPass(weights, caps, order, k - 1), order[k - 1])
  }

  /** The bookkeeping the heuristic keeps: each remaining capacity is the capacity minus the
      load of its knapsack, and no knapsack holding items is over capacity. */
  predicate Accounted(weights: seq<real>, caps: seq<real>, s: State)
  {
    |s.knapsacks| == |caps| && |s.remaining| == |caps| &&
    (forall j :: 0 <= j < |caps| ==> Within(s.knapsacks[j], 0, |weights|)) &&
    forall j :: 0 <= j < |caps| ==>
      s.remaining[j] == caps[j] - Load(weights, s.knapsacks[j]) &&
      (s.knapsacks[j] != [] ==> s.remaining[j] >= 0.0)
  }

  /** With capacities that are not negative, no remaining capacity is negative; otherwise
      only a knapsack that was never filled can show a negative remaining capacity. */
  lemma RemainingNonNegative(weights: seq<real>, caps: seq<real>, s: State)
    requires Accounted(weights, caps, s)
    ensures forall j :: 0 <= j < |caps| ==> s.remaining[j] >= 0.0 || (s.knapsacks[j] == [] && s.remaining[j] == caps[j])
    ensures (forall j :: 0 <= j < |caps| ==> caps[j] >= 0.0) ==> forall j :: 0 <= j < |caps| ==> s.remaining[j] >= 0.0
  {
  }

  /** All items of all knapsacks, with multiplicity. */
  function Bag(ks: seq<seq<int>>): multiset<int>
  {
    if |ks| == 0 then multiset{} else Bag(ks[..|ks| - 1]) + multiset(ks[|ks| - 1])
  }

  lemma LoadAppend(weights: seq<real>, c: seq<int>, x: int)
    requires Within(c, 0, |weights|) && 0 <= x < |weights|
    ensures Within(c + [x], 0, |weights|)
    ensures Load(weights, c + [x]) == Load(weights, c) + weights[x]
  {
    assert (c + [x])[..|c|] == c;
  }

  lemma {:induction false} BagUpdate(ks: seq<seq<int>>, i: int, t: seq<int>)
    requires 0 <= i < |ks|
    ensures Bag(ks[i := t]) + multiset(ks[i]) == Bag(ks) + multiset(t)
    decreases |ks|
  {
    var n := |ks| - 1;
    if i == n {
      assert ks[i := t][..n] == ks[..n];
    } else {
      var u := ks[i := t];
      var p := ks[..n];
      assert u[..n] == p[i := t];
      assert u[n] == ks[n] && p[i] == ks[i];
      BagUpdate(p, i, t);
      var before := Bag(p);
      var after := Bag(p[i := t]);
      assert Bag(u) == after + multiset(ks[n]);
      assert Bag(ks) == before + multiset(ks[n]);
      forall z ensures (Bag(u) + multiset(ks[i]))[z] == (Bag(ks) + multiset(t))[z] {
        assert (after + multiset(ks[i]))[z] == (before + multiset(t))[z];
      }
    }
  }

  lemma {:induction false} BagFlat(ks: seq<seq<int>>)
    ensures Bag(ks) == multiset(Flat(ks))
    decreases |ks|
  {
    if |ks| > 0 {
      BagFlat(ks[..|ks| - 1]);
    }
  }

  /** One step of the first pass keeps the accounting. */
  lemma PlaceAccounted(weights: seq<real>, caps: seq<real>, s: State, item: int)
    requires Accounted(weights, caps, s) && 0 <= item < |weights|
    ensures Accounted(weights, caps, Place(weights, s, item))
  {
    var b := Choice(weights[item], s.remaining, |s.remaining|);
    if b != -1 {
      var t := Place(weights, s, item);
      LoadAppend(weights, s.knapsacks[b], item);
      forall j | 0 <= j < |caps|
        ensures Within(t.knapsacks[j], 0, |weights|)
        ensures t.remaining[j] == caps[j] - Load(weights, t.knapsacks[j])
        ensures t.knapsacks[j] != [] ==> t.remaining[j] >= 0.0
      {
        if j != b {
          assert t.knapsacks[j] == s.knapsacks[j] && t.remaining[j] == s.remaining[j];
        }
      }
    }
  }

  /** One step of the first pass adds at most the item itself. */
  lemma PlaceBag(weights: seq<real>, s: State, item: int)
    requires 0 <= item < |weights| && |s.knapsacks| == |s.remaining|
    ensures Bag(Place(weights, s, item).knapsacks) <= Bag(s.knapsacks) + multiset{item}
  {
    var b := Choice(weights[item], s.remaining, |s.remaining|);
    if b != -1 {
      var t := Place(weights, s, item);
      var c := s.knapsacks[b] + [item];
      BagUpdate(s.knapsacks, b, c);
      assert multiset(c) == multiset(s.knapsacks[b]) + multiset{item};
      var bag, bag1 := Bag(s.knapsacks), Bag(t.knapsacks);
      assert t.knapsacks == s.knapsacks[b := c];
      assert bag1 + multiset(s.knapsacks[b]) == bag + multiset(c);
      forall z ensures bag1[z] == (bag + multiset{item})[z] {
        assert (bag1 + multiset(s.knapsacks[b]))[z] == (bag + multiset(c))[z];
        assert multiset(c)[z] == (multiset(s.knapsacks[b]) + multiset{item})[z];
      }
    }
  }

  /** After any number of items the first pass keeps the accounting: every remaining
      capacity is the capacity less the load, and no knapsack with items is over. */
  lemma {:induction false} FirstPassAccounted(weights: seq<real>, caps: seq<real>, order: seq<int>, k: nat)
    requires k <= |order| && Within(order, 0, |weights|)
    ensures Accounted(weights, caps, FirstPass(weights, caps, order, k))
  {
    if k > 0 {
      FirstPassAccounted(weights, caps, order, k - 1);
      assert order[k - 1] in order;
      PlaceAccounted(weights, caps, FirstPass(weights, caps, order, k - 1), order[k - 1]);
    }
  }

  lemma PrefixBag(order: seq<int>, k: nat)
    requires 0 < k <= |order|
    ensures multiset(order[..k]) == multiset(order[..k - 1]) + multiset{order[k - 1]}
  {
    assert order[..k] == order[..k - 1] + [order[k - 1]];
  }

  /** The first k steps place each item at most as often as it occurs among the first
      k items. */
  predicate PlacedFromPrefix(weights: seq<real>, caps: seq<real>, order: seq<int>, k: nat)
    requires k <= |order| && Within(order, 0, |weights|)
  {
    Bag(FirstPass(weights, caps, order, k).knapsacks) <= multiset(order[..k])
  }

  /** Every item placed by the first k steps is one of the first k items, placed once. */
  lemma {:induction false} FirstPassBag(weights: seq<real>, caps: seq<real>, order: seq<int>, k: nat)
    requires k <= |order| && Within(order, 0, |weights|)
    ensures PlacedFromPrefix(weights, caps, order, k)
    decreases k, 2
  {
    if k == 0 {
      FirstPassStart(weights, caps, order, k);
    } else {
      FirstPassBagStep(weights, caps, order, k);
    }
  }

  lemma FirstPassStart(weights: seq<real>, caps: seq<real>, order: seq<int>, k: nat)
    requires k == 0 && Within(order, 0, |weights|)
    ensures PlacedFromPrefix(weights, caps, order, k)
  {
    var ks: seq<seq<int>> := seq(|caps|, _ => []);
    assert FirstPass(weights, caps, order, 0).knapsacks == ks;
    EmptyBag(ks);
  }

  lemma FirstPassBagStep(weights: seq<real>, caps: seq<real>, order: seq<int>, k: nat)
    requires 0 < k <= |order| && Within(order, 0, |weights|)
    ensures PlacedFromPrefix(weights, caps, order, k)
    decreases k, 1
  {
    FirstPassBag(weights, caps, order, k - 1);
    var item := order[k - 1];
    assert item in order;
    var s := FirstPass(weights, caps, order, k - 1);
    var t := Place(weights, s, item);
    assert FirstPass(weights, caps, order, k) == t;
    PlaceBag(weights, s, item);
    PrefixBag(order, k);
    SubBagStep(Bag(t.knapsacks), Bag(s.knapsacks), multiset(order[..k - 1]), multiset(order[..k]), item);
  }

  lemma SubBagStep(bag1: multiset<int>, bag: multiset<int>, seen: multiset<int>, seen1: multiset<int>, item: int)
    requires bag1 <= bag + multiset{item} && bag <= seen && seen1 == seen + multiset{item}
    ensures bag1 <= seen1
  {
    forall z ensures bag1[z] <= seen1[z] {
      assert bag1[z] <= (bag + multiset{item})[z];
    }
  }

  lemma {:induction false} EmptyBag(ks: seq<seq<int>>)
    requires forall j :: 0 <= j < |ks| ==> ks[j] == []
    ensures Bag(ks) == multiset{}
    decreases |ks|
  {
    if |ks| > 0 {
      EmptyBag(ks[..|ks| - 1]);
    }
  }

  /** A first pass over distinct items places each of them at most once. */
  lemma FirstPassDistinct(weights: seq<real>, caps: seq<real>, order: seq<int>)
    requires Within(order, 0, |weights|) && Distinct(order)
    ensures var r := FirstPass(weights, caps, order, |order|).knapsacks;
      Distinct(Flat(r)) && forall x :: x in Flat(r) ==> x in order
  {
    var r := FirstPass(weights, caps, order, |order|).knapsacks;
    FirstPassBag(weights, caps, order, |order|);
    assert order[..|order|] == order;
    BagFlat(r);
    DistinctSubBag(Flat(r), order);
  }

  lemma DistinctCounts(s: seq<int>, x: int)
    requires Distinct(s)
    ensures multiset(s)[x] <= 1
    decreases |s|
  {
    if |s| > 0 {
      var n := |s| - 1;
      assert s == s[..n] + [s[n]];
      assert s[n] !in s[..n];
      DistinctCounts(s[..n], x);
    }
  }

  lemma DistinctSubBag(s: seq<int>, t: seq<int>)
    requires multiset(s) <= multiset(t) && Distinct(t)
    ensures Distinct(s) && forall x :: x in s ==> x in t
  {
    forall i, j | 0 <= i < j < |s| ensures s[i] != s[j] {
      if s[i] == s[j] {
        assert s == s[..j] + s[j..];
        assert s[i] in s[..j] && s[j] in s[j..];
        assert multiset(s)[s[i]] >= 2;
        DistinctCounts(t, s[i]);
        assert false;
      }
    }
    forall x | x in s ensures x in t {
      assert multiset(s)[x] > 0;
    }
  }

  /** The inner scan of the first pass: the worst-fit knapsack for weight `w`, or -1. */
  method WorstFit(w: real, rem: array<real>) returns (best: int)
    ensures best == Choice(w, rem[..], rem.Length)
  {
    best := -1;
    var maxRemaining := -1.0;
    for j := 0 to rem.Length
      invariant best == Choice(w, rem[..], j)
      invariant best != -1 ==> maxRemaining == rem[best]
    {
      ChoiceNext(w, rem[..], j);
      if w <= rem[j] {
        if best == -1 || rem[j] > maxRemaining {
          maxRemaining := rem[j];
          best := j;
        }
      }
    }
  }

  /** One more knapsack scanned. */
  lemma ChoiceNext(w: real, rem: seq<real>, j: nat)
    requires j < |rem|
    ensures var b := Choice(w, rem, j);
      Choice(w, rem, j + 1) == if w <= rem[j] && (b == -1 || rem[j] > rem[b]) then j else b
  {
  }

  /** The loop of the first pass, over the `remaining_capacities` buffer. */
  method FirstPassLoop(weights: seq<real>, caps: seq<real>, order: seq<int>, rem: array<real>)
    returns (ks: seq<seq<int>>)
    requires rem[..] == caps && Within(order, 0, |weights|)
    modifies rem
    ensures State(ks, rem[..]) == FirstPass(weights, caps, order, |order|)
  {
    ks := seq(rem.Length, _ => []);
    for k := 0 to |order|
      invariant State(ks, rem[..]) == FirstPass(weights, caps, order, k)
    {
      ks := PlaceNext(weights, caps, order, k, ks, rem);
    }
  }

  /** One iteration of the first pass: place `order[k]` in its worst-fit knapsack. */
  method PlaceNext(weights: seq<real>, caps: seq<real>, order: seq<int>, k: nat, ks: seq<seq<int>>, rem: array<real>)
    returns (ks': seq<seq<int>>)
    requires k < |order| && Within(order, 0, |weights|)
    requires State(ks, rem[..]) == FirstPass(weights, caps, order, k)
    modifies rem
    ensures State(ks', rem[..]) == FirstPass(weights, caps, order, k + 1)
  {
    var item := order[k];
    assert item in order;
    ghost var pre := State(ks, rem[..]);
    var best := WorstFit(weights[item], rem);
    PlaceChoice(weights, pre, item);
    ks' := ks;
    if best != -1 {
      ks' := ks[best := ks[best] + [item]];
      Deduct(rem, best, weights[item]);
    }
    FirstPassNext(weights, caps, order, k);
  }

  /** `remaining_capacities[best] -= weights[item]` */
  method Deduct(rem: array<real>, b: int, w: real)
    requires 0 <= b < rem.Length
    modifies rem
    ensures rem[..] == old(rem[..])[b := old(rem[b]) - w]
  {
    rem[b] := rem[b] - w;
  }

  /** `Place` spelled out by the knapsack it chooses. */
  lemma PlaceChoice(weights: seq<real>, s: State, item: int)
    requires 0 <= item < |weights| && |s.knapsacks| == |s.remaining|
    ensures var b := Choice(weights[item], s.remaining, |s.remaining|);
      Place(weights, s, item) ==
        if b == -1 then s
        else State(s.knapsacks[b := s.knapsacks[b] + [item]], s.remaining[b := s.remaining[b] - weights[item]])
  {
  }

  lemma FirstPassNext(weights: seq<real>, caps: seq<real>, order: seq<int>, k: nat)
    requires k < |order| && Within(order, 0, |weights|)
    ensures order[k] in order
    ensures FirstPass(weights, caps, order, k + 1) == Place(weights, FirstPass(weights, caps, order, k), order[k])
  {
  }

  // ---------------------------------------------------------------------------
  // The second pass: improving swaps

  /** Knapsack i's a-th item and knapsack j's b-th item trade places. */
  function SwapAt(ks: seq<seq<int>>, i: int, j: int, a: int, b: int): seq<seq<int>>
    requires 0 <= i < j < |ks| && 0 <= a < |ks[i]| && 0 <= b < |ks[j]|
  {
    ks[i := ks[i][a := ks[j][b]]][j := ks[j][b := ks[i][a]]]
  }

  /** Exchanging knapsack i's a-th item with knapsack j's b-th item is allowed and pays:
      both knapsacks stay within capacity (`remaining_i >= weight_diff` and
      `remaining_j >= -weight_diff`) and the sum of their two CVs strictly drops. */
  predicate Improving(weights: seq<real>, ms: seq<Series>, root: real -> real,
                      s: State, i: int, j: int, a: int, b: int)
    requires WellFormed(ms) && |weights| == |ms| && |s.remaining| == |s.knapsacks|
    requires 0 <= i < j < |s.knapsacks|
    requires Within(s.knapsacks[i], 0, |ms|) && Within(s.knapsacks[j], 0, |ms|)
  {
    var ks := s.knapsacks;
    0 <= a < |ks[i]| && 0 <= b < |ks[j]| &&
    var x := ks[i][a];
    var y := ks[j][b];
    assert x in ks[i] && y in ks[j];
    var d := weights[y] - weights[x];
    var ti := ks[i][a := y];
    var tj := ks[j][b := x];
    assert forall z :: z in ti ==> z in ks[i] || z == y;
    assert forall z :: z in tj ==> z in ks[j] || z == x;
    s.remaining[i] >= d && s.remaining[j] >= -d &&
    Less(Plus(GroupCv(ms, ti, root), GroupCv(ms, tj, root)),
         Plus(GroupCv(ms, ks[i], root), GroupCv(ms, ks[j], root)))
  }

  /** A swap the second pass performs: an improving exchange, with the remaining
      capacities moved by the weight difference. */
  predicate SwapStep(weights: seq<real>, ms: seq<Series>, root: real -> real,
                     s: State, i: int, j: int, a: int, b: int, t: State)
    requires WellFormed(ms) && |weights| == |ms| && |s.remaining| == |s.knapsacks|
    requires 0 <= i < j < |s.knapsacks|
    requires Within(s.knapsacks[i], 0, |ms|) && Within(s.knapsacks[j], 0, |ms|)
  {
    Improving(weights, ms, root, s, i, j, a, b) &&
    var ks := s.knapsacks;
    var x := ks[i][a];
    var y := ks[j][b];
    assert x in ks[i] && y in ks[j];
    var d := weights[y] - weights[x];
    t == State(SwapAt(ks, i, j, a, b), s.remaining[i := s.remaining[i] - d][j := s.remaining[j] + d])
  }

  /** No pair of non-empty knapsacks has an improving exchange. */
  predicate LocallyOptimal(weights: seq<real>, ms: seq<Series>, root: real -> real, s: State)
    requires WellFormed(ms) && |weights| == |ms| && |s.remaining| == |s.knapsacks|
    requires forall k :: 0 <= k < |s.knapsacks| ==> Within(s.knapsacks[k], 0, |ms|)
  {
    forall i, j, a, b :: 0 <= i < j < |s.knapsacks| && 0 <= a < |s.knapsacks[i]| && 0 <= b < |s.knapsacks[j]| ==>
      !Improving(weights, ms, root, s, i, j, a, b)
  }

  /** No improving exchange between knapsack i and the knapsacks i+1 .. j-1. */
  predicate PairsScanned(weights: seq<real>, ms: seq<Series>, root: real -> real, s: State, i: int, j: int)
    requires WellFormed(ms) && |weights| == |ms| && |s.remaining| == |s.knapsacks|
    requires forall k :: 0 <= k < |s.knapsacks| ==> Within(s.knapsacks[k], 0, |ms|)
    requires 0 <= i < |s.knapsacks|
  {
    forall j', a, b :: i < j' < j && j' < |s.knapsacks| && 0 <= a < |s.knapsacks[i]| && 0 <= b < |s.knapsacks[j']| ==>
      !Improving(weights, ms, root, s, i, j', a, b)
  }

  /** No improving exchange between knapsacks i' < j with i' below i. */
  predicate RowsScanned(weights: seq<real>, ms: seq<Series>, root: real -> real, s: State, i: int)
    requires WellFormed(ms) && |weights| == |ms| && |s.remaining| == |s.knapsacks|
    requires forall k :: 0 <= k < |s.knapsacks| ==> Within(s.knapsacks[k], 0, |ms|)
  {
    forall i', j, a, b :: 0 <= i' < i && i' < j < |s.knapsacks| && 0 <= a < |s.knapsacks[i']| && 0 <= b < |s.knapsacks[j]| ==>
      !Improving(weights, ms, root, s, i', j, a, b)
  }

  lemma PairsScannedNext(weights: seq<real>, ms: seq<Series>, root: real -> real, s: State, i: int, j: int)
    requires WellFormed(ms) && |weights| == |ms| && |s.remaining| == |s.knapsacks|
    requires forall k :: 0 <= k < |s.knapsacks| ==> Within(s.knapsacks[k], 0, |ms|)
    requires 0 <= i < j < |s.knapsacks| && PairsScanned(weights, ms, root, s, i, j)
    requires forall a, b :: 0 <= a < |s.knapsacks[i]| && 0 <= b < |s.knapsacks[j]| ==>
      !Improving(weights, ms, root, s, i, j, a, b)
    ensures PairsScanned(weights, ms, root, s, i, j + 1)
  {
  }

  lemma RowsScannedNext(weights: seq<real>, ms: seq<Series>, root: real -> real, s: State, i: int)
    requires WellFormed(ms) && |weights| == |ms| && |s.remaining| == |s.knapsacks|
    requires forall k :: 0 <= k < |s.knapsacks| ==> Within(s.knapsacks[k], 0, |ms|)
    requires 0 <= i < |s.knapsacks| && RowsScanned(weights, ms, root, s, i)
    requires PairsScanned(weights, ms, root, s, i, |s.knapsacks|)
    ensures RowsScanned(weights, ms, root, s, i + 1)
  {
  }

  lemma RowsScannedAll(weights: seq<real>, ms: seq<Series>, root: real -> real, s: State)
    requires WellFormed(ms) && |weights| == |ms| && |s.remaining| == |s.knapsacks|
    requires forall k :: 0 <= k < |s.knapsacks| ==> Within(s.knapsacks[k], 0, |ms|)
    requires RowsScanned(weights, ms, root, s, |s.knapsacks|)
    ensures LocallyOptimal(weights, ms, root, s)
  {
  }

  lemma LoadUpdate(weights: seq<real>, c: seq<int>, a: int, y: int)
    requires Within(c, 0, |weights|) && 0 <= a < |c| && 0 <= y < |weights|
    ensures Within(c[a := y], 0, |weights|)
    ensures c[a] in c && Load(weights, c[a := y]) == Load(weights, c) - weights[c[a]] + weights[y]
    decreases |c|
  {
    var n := |c| - 1;
    assert c[a] in c && c[n] in c;
    WithinUpdate(c, a, y, 0, |weights|);
    var u := c[a := y];
    if a < n {
      assert u[..n] == c[..n][a := y];
      WithinPrefix(c, n, 0, |weights|);
      LoadUpdate(weights, c[..n], a, y);
      assert c[..n][a] == c[a] && u[n] == c[n];
    } else {
      assert u[..n] == c[..n];
    }
  }

  lemma SwapBag(ks: seq<seq<int>>, i: int, j: int, a: int, b: int)
    requires 0 <= i < j < |ks| && 0 <= a < |ks[i]| && 0 <= b < |ks[j]|
    ensures Bag(SwapAt(ks, i, j, a, b)) == Bag(ks)
  {
    var x := ks[i][a];
    var y := ks[j][b];
    var ti := ks[i][a := y];
    var tj := ks[j][b := x];
    var ks1 := ks[i := ti];
    var t := SwapAt(ks, i, j, a, b);
    assert t == ks1[j := tj] && ks1[j] == ks[j];
    BagUpdate(ks, i, ti);
    BagUpdate(ks1, j, tj);
    var bag, bag1, bag2 := Bag(ks), Bag(ks1), Bag(t);
    assert bag1 + multiset(ks[i]) == bag + multiset(ti);
    assert bag2 + multiset(ks[j]) == bag1 + multiset(tj);
    assert multiset(ti) + multiset{x} == multiset(ks[i]) + multiset{y};
    assert multiset(tj) + multiset{y} == multiset(ks[j]) + multiset{x};
    forall z ensures bag2[z] == bag[z] {
      assert (bag1 + multiset(ks[i]))[z] == (bag + multiset(ti))[z];
      assert (bag2 + multiset(ks[j]))[z] == (bag1 + multiset(tj))[z];
      assert (multiset(ti) + multiset{x})[z] == (multiset(ks[i]) + multiset{y})[z];
      assert (multiset(tj) + multiset{y})[z] == (multiset(ks[j]) + multiset{x})[z];
    }
  }

  /** A swap keeps the accounting, every knapsack's size and the items placed. */
  lemma SwapKeeps(weights: seq<real>, caps: seq<real>, ms: seq<Series>, root: real -> real,
                  s: State, i: int, j: int, a: int, b: int, t: State)
    requires WellFormed(ms) && |weights| == |ms| && Accounted(weights, caps, s)
    requires 0 <= i < j < |s.knapsacks|
    requires SwapStep(weights, ms, root, s, i, j, a, b, t)
    ensures Accounted(weights, caps, t)
    ensures |t.knapsacks| == |s.knapsacks|
    ensures forall k :: 0 <= k < |s.knapsacks| ==> |t.knapsacks[k]| == |s.knapsacks[k]|
    ensures Bag(t.knapsacks) == Bag(s.knapsacks)
  {
    var ks := s.knapsacks;
    var x := ks[i][a];
    var y := ks[j][b];
    assert x in ks[i] && y in ks[j];
    var d := weights[y] - weights[x];
    LoadUpdate(weights, ks[i], a, y);
    LoadUpdate(weights, ks[j], b, x);
    SwapBag(ks, i, j, a, b);
    forall k | 0 <= k < |caps|
      ensures Within(t.knapsacks[k], 0, |weights|)
      ensures t.remaining[k] == caps[k] - Load(weights, t.knapsacks[k])
      ensures t.knapsacks[k] != [] ==> t.remaining[k] >= 0.0
    {
      if k != i && k != j {
        assert t.knapsacks[k] == ks[k] && t.remaining[k] == s.remaining[k];
      }
    }
  }

  /** Exchange (a', b') comes before (a, b) in the order the item loops try them. */
  predicate Before(a': int, b': int, a: int, b: int)
  {
    a' < a || (a' == a && b' < b)
  }

  /** The exchanges the item loops of a pair try: all of them when the pair is entered with
      `improved` unset, and only those of knapsack i's first item once an earlier pair of
      the round has swapped (`if improved: break` then stops the outer item loop). */
  predicate Scanned(improvedIn: bool, a: int)
  {
    !improvedIn || a == 0
  }

  /** The swap the item loops perform: the first improving exchange among those they try. */
  predicate FirstSwap(weights: seq<real>, ms: seq<Series>, root: real -> real,
                      s: State, i: int, j: int, a: int, b: int, improvedIn: bool, t: State)
    requires WellFormed(ms) && |weights| == |ms| && |s.remaining| == |s.knapsacks|
    requires 0 <= i < j < |s.knapsacks|
    requires Within(s.knapsacks[i], 0, |ms|) && Within(s.knapsacks[j], 0, |ms|)
  {
    SwapStep(weights, ms, root, s, i, j, a, b, t) && Scanned(improvedIn, a) &&
    forall a', b' :: 0 <= a' < |s.knapsacks[i]| && 0 <= b' < |s.knapsacks[j]| && Before(a', b', a, b) ==>
      !Improving(weights, ms, root, s, i, j, a', b')
  }

  /** The item loops for knapsacks i and j. A swap leaves both loops (the inner `break`
      and then `if improved: break`); and once `improved` is set by an earlier pair, the
      outer loop also stops after the first item of knapsack i. Either nothing changes and
      no exchange the loops try improves, or the first improving one they try is made. */
  method TryPair(weights: seq<real>, ms: seq<Series>, root: real -> real,
                 ks: seq<seq<int>>, rem: array<real>, i: int, j: int, improvedIn: bool)
    returns (ks': seq<seq<int>>, improved: bool)
    requires WellFormed(ms) && |weights| == |ms| && rem.Length == |ks|
    requires 0 <= i < j < |ks| && ks[i] != [] && ks[j] != []
    requires Within(ks[i], 0, |ms|) && Within(ks[j], 0, |ms|)
    modifies rem
    ensures (ks' == ks && rem[..] == old(rem[..]) && improved == improvedIn &&
             forall a, b :: 0 <= a < |ks[i]| && 0 <= b < |ks[j]| && Scanned(improvedIn, a) ==>
               !Improving(weights, ms, root, State(ks, old(rem[..])), i, j, a, b)) ||
            (improved && exists a, b :: FirstSwap(weights, ms, root, State(ks, old(rem[..])), i, j, a, b, improvedIn, State(ks', rem[..])))
    ensures !improved ==> forall a, b :: !Improving(weights, ms, root, State(ks, old(rem[..])), i, j, a, b)
  {
    ks' := ks;
    improved := improvedIn;
    ghost var s := State(ks, rem[..]);
    for a := 0 to |ks[i]|
      invariant ks' == ks && rem[..] == s.remaining && improved == improvedIn
      invariant improvedIn ==> a == 0
      invariant forall a', b :: 0 <= a' < a && 0 <= b < |ks[j]| ==> !Improving(weights, ms, root, s, i, j, a', b)
    {
      for b := 0 to |ks[j]|
        invariant ks' == ks && rem[..] == s.remaining && improved == improvedIn
        invariant forall b' :: 0 <= b' < b ==> !Improving(weights, ms, root, s, i, j, a, b')
      {
        var swapped;
        ks', swapped := TryExchange(weights, ms, root, ks, rem, i, j, a, b);
        if swapped {
          improved := true;
          assert FirstSwap(weights, ms, root, s, i, j, a, b, improvedIn, State(ks', rem[..]));
          return;
        }
      }
      if improved {
        break;
      }
    }
  }

  /** The body of the item loops: exchange knapsack i's a-th item with knapsack j's b-th
      item when that fits both capacities and lowers the summed CV. */
  method TryExchange(weights: seq<real>, ms: seq<Series>, root: real -> real,
                     ks: seq<seq<int>>, rem: array<real>, i: int, j: int, a: int, b: int)
    returns (ks': seq<seq<int>>, swapped: bool)
    requires WellFormed(ms) && |weights| == |ms| && rem.Length == |ks|
    requires 0 <= i < j < |ks| && 0 <= a < |ks[i]| && 0 <= b < |ks[j]|
    requires Within(ks[i], 0, |ms|) && Within(ks[j], 0, |ms|)
    modifies rem
    ensures !swapped ==>
      ks' == ks && rem[..] == old(rem[..]) && !Improving(weights, ms, root, State(ks, old(rem[..])), i, j, a, b)
    ensures swapped ==> SwapStep(weights, ms, root, State(ks, old(rem[..])), i, j, a, b, State(ks', rem[..]))
  {
    ks' := ks;
    swapped := TestExchange(weights, ms, root, ks, rem[..], i, j, a, b);
    if swapped {
      assert ks[i][a] in ks[i] && ks[j][b] in ks[j];
      var d := weights[ks[j][b]] - weights[ks[i][a]];
      ks' := SwapAt(ks, i, j, a, b);
      Transfer(rem, i, j, d);
    }
  }

  /** The test in the item loops: the exchange fits both capacities and lowers the
      summed CV. */
  method TestExchange(weights: seq<real>, ms: seq<Series>, root: real -> real,
                      ks: seq<seq<int>>, rem: seq<real>, i: int, j: int, a: int, b: int)
    returns (ok: bool)
    requires WellFormed(ms) && |weights| == |ms| && |rem| == |ks|
    requires 0 <= i < j < |ks| && 0 <= a < |ks[i]| && 0 <= b < |ks[j]|
    requires Within(ks[i], 0, |ms|) && Within(ks[j], 0, |ms|)
    ensures ok == Improving(weights, ms, root, State(ks, rem), i, j, a, b)
  {
    ok := false;
    var x := ks[i][a];
    var y := ks[j][b];
    assert x in ks[i] && y in ks[j];
    var d := weights[y] - weights[x];
    if rem[i] >= d && rem[j] >= -d {
      var ti := ks[i][a := y];
      var tj := ks[j][b := x];
      assert forall z :: z in ti ==> z in ks[i] || z == y;
      assert forall z :: z in tj ==> z in ks[j] || z == x;
      var before := Plus(GroupCv(ms, ks[i], root), GroupCv(ms, ks[j], root));
      var after := Plus(GroupCv(ms, ti, root), GroupCv(ms, tj, root));
      ok := Less(after, before);
    }
  }

  /** `remaining_capacities[i] -= weight_diff; remaining_capacities[j] += weight_diff` */
  method Transfer(rem: array<real>, i: int, j: int, d: real)
    requires 0 <= i < j < rem.Length
    modifies rem
    ensures rem[..] == old(rem[..])[i := old(rem[i]) - d][j := old(rem[j]) + d]
  {
    rem[i] := rem[i] - d;
    rem[j] := rem[j] + d;
  }

  /** Same number of knapsacks, same sizes, same items. */
  predicate Kept(ks: seq<seq<int>>, ks': seq<seq<int>>)
  {
    |ks'| == |ks| && (forall k :: 0 <= k < |ks| ==> |ks'[k]| == |ks[k]|) && Bag(ks') == Bag(ks)
  }

  lemma PairKeeps(weights: seq<real>, caps: seq<real>, ms: seq<Series>, root: real -> real,
                  s: State, i: int, j: int, t: State, improvedIn: bool, improved: bool)
    requires WellFormed(ms) && |weights| == |ms| && Accounted(weights, caps, s)
    requires 0 <= i < j < |s.knapsacks|
    requires (t == s && improved == improvedIn) ||
             (improved && exists a, b :: FirstSwap(weights, ms, root, s, i, j, a, b, improvedIn, t))
    ensures Accounted(weights, caps, t) && Kept(s.knapsacks, t.knapsacks)
  {
    if t != s || improved != improvedIn {
      var a, b :| FirstSwap(weights, ms, root, s, i, j, a, b, improvedIn, t);
      SwapKeeps(weights, caps, ms, root, s, i, j, a, b, t);
    }
  }

  lemma KeptTransitive(ks: seq<seq<int>>, ks1: seq<seq<int>>, ks2: seq<seq<int>>)
    requires Kept(ks, ks1) && Kept(ks1, ks2)
    ensures Kept(ks, ks2)
  {
  }

  /** The pairs (i, j) for one i: knapsack i against every later non-empty knapsack. */
  method Sweep(weights: seq<real>, caps: seq<real>, ms: seq<Series>, root: real -> real,
               ks: seq<seq<int>>, rem: array<real>, i: int, improvedIn: bool)
    returns (ks': seq<seq<int>>, improved: bool)
    requires WellFormed(ms) && |weights| == |ms| && Accounted(weights, caps, State(ks, rem[..]))
    requires 0 <= i < |ks|
    modifies rem
    ensures Accounted(weights, caps, State(ks', rem[..])) && Kept(ks, ks')
    ensures !improved ==> !improvedIn && ks' == ks && rem[..] == old(rem[..])
    ensures !improved ==> PairsScanned(weights, ms, root, State(ks, old(rem[..])), i, |ks|)
  {
    ks' := ks;
    improved := improvedIn;
    ghost var s0 := State(ks, rem[..]);
    for j := i + 1 to |ks|
      invariant Accounted(weights, caps, State(ks', rem[..])) && Kept(ks, ks')
      invariant !improved ==> !improvedIn && ks' == ks && rem[..] == s0.remaining
      invariant !improved ==> PairsScanned(weights, ms, root, s0, i, j)
    {
      ghost var s := State(ks', rem[..]);
      if ks'[i] != [] && ks'[j] != [] {
        ghost var before := improved;
        ks', improved := TryPair(weights, ms, root, ks', rem, i, j, improved);
        PairKeeps(weights, caps, ms, root, s, i, j, State(ks', rem[..]), before, improved);
        KeptTransitive(ks, s.knapsacks, ks');
      }
      if !improved {
        PairsScannedNext(weights, ms, root, s0, i, j);
      }
    }
  }

  /** One round of `while improved`: every pair i < j of non-empty knapsacks in order.
      A round without a swap has tried every exchange, so it ends at a local optimum. */
  method Round(weights: seq<real>, caps: seq<real>, ms: seq<Series>, root: real -> real,
               ks: seq<seq<int>>, rem: array<real>)
    returns (ks': seq<seq<int>>, improved: bool)
    requires WellFormed(ms) && |weights| == |ms| && Accounted(weights, caps, State(ks, rem[..]))
    modifies rem
    ensures Accounted(weights, caps, State(ks', rem[..])) && Kept(ks, ks')
    ensures !improved ==> ks' == ks && rem[..] == old(rem[..])
    ensures !improved ==> LocallyOptimal(weights, ms, root, State(ks, rem[..]))
  {
    ks' := ks;
    improved := false;
    ghost var s0 := State(ks, rem[..]);
    for i := 0 to |ks|
      invariant Accounted(weights, caps, State(ks', rem[..])) && Kept(ks, ks')
      invariant !improved ==> ks' == ks && rem[..] == s0.remaining
      invariant !improved ==> RowsScanned(weights, ms, root, s0, i)
    {
      var next;
      next, improved := Sweep(weights, caps, ms, root, ks', rem, i, improved);
      KeptTransitive(ks, ks', next);
      ks' := next;
      if !improved {
        RowsScannedNext(weights, ms, root, s0, i);
      }
    }
    if !improved {
      RowsScannedAll(weights, ms, root, s0);
    }
  }

  /** The second pass: rounds of swaps while the last round improved, for at most `fuel`
      rounds. When it stops by itself, no exchange between two knapsacks improves them. */
  method SwapPhase(weights: seq<real>, caps: seq<real>, ms: seq<Series>, root: real -> real,
                   ks: seq<seq<int>>, rem: array<real>, fuel: nat)
    returns (ks': seq<seq<int>>, converged: bool)
    requires WellFormed(ms) && |weights| == |ms| && Accounted(weights, caps, State(ks, rem[..]))
    modifies rem
    ensures Accounted(weights, caps, State(ks', rem[..])) && Kept(ks, ks')
    ensures converged ==> LocallyOptimal(weights, ms, root, State(ks', rem[..]))
  {
    ks' := ks;
    var improved := true;
    var rounds := 0;
    while improved && rounds < fuel
      invariant 0 <= rounds <= fuel
      invariant Accounted(weights, caps, State(ks', rem[..])) && Kept(ks, ks')
      invariant !improved ==> LocallyOptimal(weights, ms, root, State(ks', rem[..]))
      decreases fuel - rounds
    {
      var next;
      next, improved := Round(weights, caps, ms, root, ks', rem);
      KeptTransitive(ks, ks', next);
      ks' := next;
      rounds := rounds + 1;
    }
    converged := !improved;
  }

  // ---------------------------------------------------------------------------
  // solve_multiple_knapsack and form_multiple_knapsack_groups

  /** `remaining_capacities` as the bookkeeping keeps it: each capacity less the load of its
      knapsack. */
  function Remaining(weights: seq<real>, caps: seq<real>, ks: seq<seq<int>>): (r: seq<real>)
    requires |ks| == |caps| && forall k :: 0 <= k < |ks| ==> Within(ks[k], 0, |weights|)
    ensures |r| == |caps|
  {
    seq(|caps|, k requires 0 <= k < |caps| => caps[k] - Load(weights, ks[k]))
  }

  lemma AccountedRemaining(weights: seq<real>, caps: seq<real>, s: State)
    requires Accounted(weights, caps, s)
    ensures s.remaining == Remaining(weights, caps, s.knapsacks)
  {
  }

  /** `solve_multiple_knapsack`: the worst-fit pass over the items in descending key order,
      then at most `fuel` rounds of swaps. The result has one knapsack per capacity, with the
      items and sizes of the first pass, no item twice, and no non-empty knapsack over its
      capacity; when `while improved` ends by itself (`converged`), no exchange between two
      knapsacks improves them. */
  method SolveMultipleKnapsack(weights: seq<real>, values: seq<Ext>, capacities: seq<real>,
                               ms: seq<Series>, root: real -> real, fuel: nat)
    returns (knapsacks: seq<seq<int>>, converged: bool)
    requires WellFormed(ms) && |weights| == |ms| && |values| == |ms|
    ensures |knapsacks| == |capacities|
    ensures Kept(FirstPass(weights, capacities, SortItems(Keys(weights, values), |ms|), |ms|).knapsacks, knapsacks)
    ensures Distinct(Flat(knapsacks)) && Within(Flat(knapsacks), 0, |ms|)
    ensures forall k :: 0 <= k < |knapsacks| ==> Within(knapsacks[k], 0, |ms|)
    ensures forall k :: 0 <= k < |knapsacks| && knapsacks[k] != [] ==> Load(weights, knapsacks[k]) <= capacities[k]
    ensures converged ==> LocallyOptimal(weights, ms, root, State(knapsacks, Remaining(weights, capacities, knapsacks)))
  {
    var order := SortItems(Keys(weights, values), |ms|);
    var rem := new real[|capacities|](k requires 0 <= k < |capacities| => capacities[k]);
    assert rem[..] == capacities;
    var first := FirstPassLoop(weights, capacities, order, rem);
    FirstPassAccounted(weights, capacities, order, |order|);
    FirstPassDistinct(weights, capacities, order);
    knapsacks, converged := SwapPhase(weights, capacities, ms, root, first, rem, fuel);
    AccountedRemaining(weights, capacities, State(knapsacks, rem[..]));
    BagFlat(first);
    BagFlat(knapsacks);
    DistinctSubBag(Flat(knapsacks), Flat(first));
  }

  /** The knapsack count: `num_knapsacks`, or `max(1, n // 3)` when it is not given. */
  function Count(n: nat, numKnapsacks: Splitter.Option<int>): int
  {
    if numKnapsacks.Some? then numKnapsacks.value else if n / 3 > 1 then n / 3 else 1
  }

  function Weights(ms: seq<Series>): (r: seq<real>)
    requires WellFormed(ms)
    ensures |r| == |ms|
  {
    seq(|ms|, i requires 0 <= i < |ms| => Weight(ms[i]))
  }

  /** The common capacity: `max_capacity`, or 1.2 times the average weight per knapsack. */
  function Capacity(ms: seq<Series>, numKnapsacks: Splitter.Option<int>, maxCapacity: Splitter.Option<real>): real
    requires WellFormed(ms) && (maxCapacity.Some? || Count(|ms|, numKnapsacks) != 0)
  {
    if maxCapacity.Some? then maxCapacity.value
    else Sum(Weights(ms)) / (Count(|ms|, numKnapsacks) as real) * 1.2
  }

  /** `[max_capacity] * num_knapsacks`: one common capacity per knapsack, none when the
      count is not positive. */
  function Capacities(ms: seq<Series>, numKnapsacks: Splitter.Option<int>, maxCapacity: Splitter.Option<real>): (r: seq<real>)
    requires WellFormed(ms) && (maxCapacity.Some? || Count(|ms|, numKnapsacks) != 0)
    ensures |r| == if Count(|ms|, numKnapsacks) > 0 then Count(|ms|, numKnapsacks) else 0
    ensures forall k :: 0 <= k < |r| ==> r[k] == Capacity(ms, numKnapsacks, maxCapacity)
  {
    var num := Count(|ms|, numKnapsacks);
    seq(if num > 0 then num else 0, _ => Capacity(ms, numKnapsacks, maxCapacity))
  }

  /** What each output triple satisfies: a non-empty index list, its microservices, and
      their slot sums. */
  predicate Aligned(ms: seq<Series>, g: Pipeline.Grouping)
    requires WellFormed(ms)
  {
    Pipeline.Parallel(g) &&
    forall k :: 0 <= k < |g.groups| ==>
      g.indices[k] != [] && Within(g.indices[k], 0, |ms|) &&
      g.groups[k] == Pick(ms, g.indices[k]) &&
      Shaped(g.groups[k]) && g.slotSums[k] == LoadSum(g.groups[k])
  }

  /** The conversion loop: one triple per non-empty knapsack, in knapsack order. */
  function Collect(ms: seq<Series>, ks: seq<seq<int>>): (g: Pipeline.Grouping)
    requires WellFormed(ms) && forall k :: 0 <= k < |ks| ==> Within(ks[k], 0, |ms|)
    ensures Pipeline.Parallel(g)
  {
    if |ks| == 0 then Pipeline.Grouping([], [], [])
    else
      var g := Collect(ms, ks[..|ks| - 1]);
      var c := ks[|ks| - 1];
      if c == [] then g
      else
        assert c[0] in c && forall k :: 0 <= k < |c| ==> c[k] in c;
        var group := Pick(ms, c);
        Pipeline.Grouping(g.groups + [group], g.indices + [c], g.slotSums + [LoadSum(group)])
  }

  /** Every triple of the conversion is aligned. */
  lemma {:induction false} CollectAligned(ms: seq<Series>, ks: seq<seq<int>>)
    requires WellFormed(ms) && forall k :: 0 <= k < |ks| ==> Within(ks[k], 0, |ms|)
    ensures Aligned(ms, Collect(ms, ks))
    decreases |ks|
  {
    if |ks| > 0 {
      var n := |ks| - 1;
      CollectAligned(ms, ks[..n]);
      var c := ks[n];
      if c != [] {
        assert c[0] in c && forall k :: 0 <= k < |c| ==> c[k] in c;
        var g := Collect(ms, ks[..n]);
        var group := Pick(ms, c);
        assert Shaped(group);
        var r := Collect(ms, ks);
        assert r == Pipeline.Grouping(g.groups + [group], g.indices + [c], g.slotSums + [LoadSum(group)]);
        forall k | 0 <= k < |r.groups|
          ensures r.indices[k] != [] && Within(r.indices[k], 0, |ms|)
          ensures r.groups[k] == Pick(ms, r.indices[k])
          ensures Shaped(r.groups[k]) && r.slotSums[k] == LoadSum(r.groups[k])
        {
          if k < |g.groups| {
            assert r.indices[k] == g.indices[k] && r.groups[k] == g.groups[k] && r.slotSums[k] == g.slotSums[k];
          }
        }
      }
    }
  }

  /** Each index list of the conversion is one of the knapsacks, and there are no more
      of them than knapsacks. */
  lemma {:induction false} CollectFrom(ms: seq<Series>, ks: seq<seq<int>>)
    requires WellFormed(ms) && forall k :: 0 <= k < |ks| ==> Within(ks[k], 0, |ms|)
    ensures forall k :: 0 <= k < |Collect(ms, ks).indices| ==> Collect(ms, ks).indices[k] in ks
    ensures |Collect(ms, ks).groups| <= |ks|
    decreases |ks|
  {
    if |ks| > 0 {
      var n := |ks| - 1;
      CollectFrom(ms, ks[..n]);
      assert forall x :: x in ks[..n] ==> x in ks;
    }
  }

  /** Dropping the empty knapsacks keeps the items and their order. */
  lemma {:induction false} CollectFlat(ms: seq<Series>, ks: seq<seq<int>>)
    requires WellFormed(ms) && forall k :: 0 <= k < |ks| ==> Within(ks[k], 0, |ms|)
    ensures Flat(Collect(ms, ks).indices) == Flat(ks)
    decreases |ks|
  {
    if |ks| > 0 {
      var n := |ks| - 1;
      CollectFlat(ms, ks[..n]);
      var c := ks[n];
      if c != [] {
        FlatAppend(Collect(ms, ks[..n]).indices, [c]);
      }
    }
  }

  /** `form_multiple_knapsack_groups` of main.py. Dividing by a `num_knapsacks` of 0 (with no
      `max_capacity`) is the one error. Otherwise the groups are the non-empty knapsacks,
      each aligned with its indices and slot sums, no microservice in two groups, at most
      `num_knapsacks` groups (none when it is negative), and none heavier than the common
      capacity. */
  method FormKnapsackGroups(ms: seq<Series>, numKnapsacks: Splitter.Option<int>,
                            maxCapacity: Splitter.Option<real>, root: real -> real, fuel: nat)
    returns (r: Splitter.Option<Pipeline.Grouping>)
    requires WellFormed(ms)
    ensures r.None? <==> maxCapacity.None? && Count(|ms|, numKnapsacks) == 0
    ensures r.Some? ==> Aligned(ms, r.value)
    ensures r.Some? ==> Distinct(Flat(r.value.indices)) && Within(Flat(r.value.indices), 0, |ms|)
    ensures r.Some? ==> |r.value.groups| == 0 || |r.value.groups| <= Count(|ms|, numKnapsacks)
    ensures r.Some? ==> forall k :: 0 <= k < |r.value.indices| ==>
      Load(Weights(ms), r.value.indices[k]) <= Capacity(ms, numKnapsacks, maxCapacity)
    ensures r.Some? ==>
      multiset(Flat(r.value.indices)) ==
      Bag(FirstPass(Weights(ms), Capacities(ms, numKnapsacks, maxCapacity),
                    SortItems(Keys(Weights(ms), Values(ms, root)), |ms|), |ms|).knapsacks)
  {
    var n := |ms|;
    var num := Count(n, numKnapsacks);
    var weights, values := ItemsOf(ms, root);
    if maxCapacity.None? && num == 0 {
      return Splitter.None;
    }
    var capacity := Capacity(ms, numKnapsacks, maxCapacity);
    var capacities := Capacities(ms, numKnapsacks, maxCapacity);
    var assignments, _ := SolveMultipleKnapsack(weights, values, capacities, ms, root, fuel);
    var g := Convert(ms, assignments);
    CollectFacts(ms, weights, capacity, assignments);
    CollectFlat(ms, assignments);
    BagFlat(assignments);
    return Splitter.Some(g);
  }

  /** What the conversion keeps of the solved knapsacks. */
  lemma CollectFacts(ms: seq<Series>, weights: seq<real>, capacity: real, ks: seq<seq<int>>)
    requires WellFormed(ms) && |weights| == |ms|
    requires forall k :: 0 <= k < |ks| ==> Within(ks[k], 0, |ms|)
    requires Distinct(Flat(ks)) && Within(Flat(ks), 0, |ms|)
    requires forall k :: 0 <= k < |ks| && ks[k] != [] ==> Load(weights, ks[k]) <= capacity
    ensures var g := Collect(ms, ks);
      Aligned(ms, g) && Distinct(Flat(g.indices)) && Within(Flat(g.indices), 0, |ms|) &&
      |g.groups| <= |ks| &&
      forall k :: 0 <= k < |g.indices| ==> Load(weights, g.indices[k]) <= capacity
  {
    CollectAligned(ms, ks);
    CollectFlat(ms, ks);
    CollectFrom(ms, ks);
    UnderCapacity(weights, capacity, ks, Collect(ms, ks).indices);
  }

  lemma UnderCapacity(weights: seq<real>, capacity: real, ks: seq<seq<int>>, out: seq<seq<int>>)
    requires forall k :: 0 <= k < |ks| ==> Within(ks[k], 0, |weights|)
    requires forall k :: 0 <= k < |ks| && ks[k] != [] ==> Load(weights, ks[k]) <= capacity
    requires forall k :: 0 <= k < |out| ==> out[k] in ks && out[k] != []
    ensures forall k :: 0 <= k < |out| ==> Within(out[k], 0, |weights|) && Load(weights, out[k]) <= capacity
  {
    forall k | 0 <= k < |out|
      ensures Within(out[k], 0, |weights|) && Load(weights, out[k]) <= capacity
    {
      var k' :| 0 <= k' < |ks| && ks[k'] == out[k];
    }
  }

  function Values(ms: seq<Series>, root: real -> real): (r: seq<Ext>)
    requires WellFormed(ms)
    ensures |r| == |ms|
  {
    seq(|ms|, i requires 0 <= i < |ms| => Value(ms[i], root))
  }

  /** The loop of `form_multiple_knapsack_groups` that computes each item's weight and value. */
  method ItemsOf(ms: seq<Series>, root: real -> real) returns (weights: seq<real>, values: seq<Ext>)
    requires WellFormed(ms)
    ensures weights == Weights(ms) && values == Values(ms, root)
  {
    weights := [];
    values := [];
    for k := 0 to |ms|
      invariant weights == Weights(ms)[..k] && values == Values(ms, root)[..k]
    {
      weights := weights + [Sum(ms[k]) / (|ms[k]| as real)];
      values := values + [Value(ms[k], root)];
    }
  }

  /** The output loop of `form_multiple_knapsack_groups`, appending to three lists. */
  method Convert(ms: seq<Series>, ks: seq<seq<int>>) returns (g: Pipeline.Grouping)
    requires WellFormed(ms) && forall k :: 0 <= k < |ks| ==> Within(ks[k], 0, |ms|)
    ensures g == Collect(ms, ks)
  {
    var groups: seq<seq<Series>> := [];
    var indices: seq<seq<int>> := [];
    var sums: seq<Series> := [];
    for k := 0 to |ks|
      invariant Pipeline.Grouping(groups, indices, sums) == Collect(ms, ks[..k])
    {
      assert ks[..k + 1][..k] == ks[..k];
      var c := ks[k];
      if c != [] {
        assert c[0] in c && forall i :: 0 <= i < |c| ==> c[i] in c;
        var group := Pick(ms, c);
        groups := groups + [group];
        indices := indices + [c];
        var slotSums := CalculateLoadSum(group);
        sums := sums + [slotSums];
      }
    }
    assert ks[..|ks|] == ks;
    g := Pipeline.Grouping(groups, indices, sums);
  }
}
