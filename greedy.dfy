/** The incremental grouping pass shared by the original microservices and the base
    components: group sizes 2, 3, ... are tried in turn, and at each size the stable
    candidates are accepted greedily, lowest CV first, when none of their members is used. */
module Greedy {
  import opened SeqUtil
  import opened Stats
  import opened Candidates

  /** The three parallel lists a grouping pass appends to: the groups, their member
      indices and their slot sums (`final_groups`, `final_group_indices`, `final_slot_sums`). */
  class GroupLists {
    var groups: seq<seq<Series>>
    var indices: seq<seq<int>>
    var slotSums: seq<Series>

    constructor ()
      ensures groups == [] && indices == [] && slotSums == []
    {
      groups := [];
      indices := [];
      slotSums := [];
    }

    /** One `append` on each of the three lists. */
    method Append(group: seq<Series>, ix: seq<int>, sums: Series)
      modifies this
      ensures groups == old(groups) + [group]
      ensures indices == old(indices) + [ix]
      ensures slotSums == old(slotSums) + [sums]
    {
      groups := groups + [group];
      indices := indices + [ix];
      slotSums := slotSums + [sums];
    }
  }

  function IndicesOf(acc: seq<Candidate>): (r: seq<seq<int>>)
    ensures |r| == |acc|
  {
    seq(|acc|, k requires 0 <= k < |acc| => acc[k].indices)
  }

  function GroupsOf(acc: seq<Candidate>): (r: seq<seq<Series>>)
    ensures |r| == |acc|
  {
    seq(|acc|, k requires 0 <= k < |acc| => acc[k].group)
  }

  predicate AllShaped(acc: seq<Candidate>)
  {
    forall k :: 0 <= k < |acc| ==> Shaped(acc[k].group)
  }

  function SlotSumsOf(acc: seq<Candidate>): (r: seq<Series>)
    requires AllShaped(acc)
    ensures |r| == |acc|
  {
    seq(|acc|, k requires 0 <= k < |acc| => LoadSum(acc[k].group))
  }

  /** The set of indices of one group. */
  function Elements(ix: seq<int>): set<int>
  {
    set i | i in ix
  }

  lemma MembersSnoc(ixs: seq<seq<int>>, ix: seq<int>)
    ensures Flat(ixs + [ix]) == Flat(ixs) + ix
    ensures Members(ixs + [ix]) == Members(ixs) + Elements(ix)
  {
    assert (ixs + [ix])[..|ixs|] == ixs;
  }

  // ---------------------------------------------------------------------------
  // Greedy acceptance at one size

  /** The candidates the inner loop accepts, in order: each one whose indices are
      neither in `used` nor in a candidate accepted before it. */
  function Accept(cands: seq<Candidate>, used: set<int>): (r: seq<Candidate>)
    ensures forall x :: x in r ==> x in cands
  {
    if |cands| == 0 then []
    else
      var prev := Accept(cands[..|cands| - 1], used);
      var c := cands[|cands| - 1];
      assert forall x :: x in cands[..|cands| - 1] ==> x in cands;
      if IsGroupAvailable(c.indices, used + Members(IndicesOf(prev))) then prev + [c] else prev
  }

  /** Accepted groups share no index with each other or with `used`; every candidate
      left out overlaps `used` or an accepted group. */
  lemma {:induction false} AcceptFacts(cands: seq<Candidate>, used: set<int>)
    requires forall x :: x in cands ==> Distinct(x.indices)
    ensures Distinct(Flat(IndicesOf(Accept(cands, used))))
    ensures Members(IndicesOf(Accept(cands, used))) !! used
    ensures forall x :: x in cands ==>
      x in Accept(cands, used) || !IsGroupAvailable(x.indices, used + Members(IndicesOf(Accept(cands, used))))
  {
    if |cands| > 0 {
      var init := cands[..|cands| - 1];
      var c := cands[|cands| - 1];
      assert forall x :: x in init ==> x in cands;
      AcceptFacts(init, used);
      AcceptOne(cands, used);
      var m := Members(IndicesOf(Accept(init, used)));
      var r := Accept(cands, used);
      assert forall x :: x in init ==> x in r || !IsGroupAvailable(x.indices, used + m);
      assert forall x :: x in cands ==> x in init || x == c;
    }
  }

  /** One more candidate: the accepted groups stay disjoint from each other and from
      `used`, and the accepted members only grow. */
  lemma AcceptOne(cands: seq<Candidate>, used: set<int>)
    requires |cands| > 0 && Distinct(cands[|cands| - 1].indices)
    requires Distinct(Flat(IndicesOf(Accept(cands[..|cands| - 1], used))))
    requires Members(IndicesOf(Accept(cands[..|cands| - 1], used))) !! used
    ensures Distinct(Flat(IndicesOf(Accept(cands, used))))
    ensures Members(IndicesOf(Accept(cands, used))) !! used
    ensures Members(IndicesOf(Accept(cands[..|cands| - 1], used))) <= Members(IndicesOf(Accept(cands, used)))
    ensures cands[|cands| - 1] in Accept(cands, used) ||
      !IsGroupAvailable(cands[|cands| - 1].indices, used + Members(IndicesOf(Accept(cands[..|cands| - 1], used))))
  {
    var prev := Accept(cands[..|cands| - 1], used);
    var c := cands[|cands| - 1];
    var m := Members(IndicesOf(prev));
    var r := Accept(cands, used);
    if IsGroupAvailable(c.indices, used + m) {
      assert r == prev + [c];
      AcceptSnoc(prev, c, used);
    } else {
      assert r == prev;
    }
  }

  /** Accepting an available candidate keeps the accepted groups disjoint. */
  lemma AcceptSnoc(prev: seq<Candidate>, c: Candidate, used: set<int>)
    requires Distinct(c.indices) && Distinct(Flat(IndicesOf(prev))) && Members(IndicesOf(prev)) !! used
    requires IsGroupAvailable(c.indices, used + Members(IndicesOf(prev)))
    ensures Distinct(Flat(IndicesOf(prev + [c])))
    ensures Members(IndicesOf(prev + [c])) !! used
    ensures Members(IndicesOf(prev)) <= Members(IndicesOf(prev + [c]))
  {
    assert IndicesOf(prev + [c]) == IndicesOf(prev) + [c.indices];
    MembersSnoc(IndicesOf(prev), c.indices);
    DistinctAppend(Flat(IndicesOf(prev)), c.indices);
  }

  // ---------------------------------------------------------------------------
  // The escalation over group sizes

  /** What a grouping pass produces: the accepted candidates, in acceptance order, and
      the indices still available. */
  datatype Outcome = Outcome(accepted: seq<Candidate>, remaining: seq<int>)

  /** `min(max_group_size + 1, n + 1)`: the end of the range of group sizes. */
  function Stop(maxSize: int, n: nat): int
  {
    if maxSize + 1 < n + 1 then maxSize + 1 else n + 1
  }

  /** The pass from group size `size` on, with `prior` the index lists already in the
      output list (whose members count as used). */
  function Escalate(series: seq<Series>, avail: seq<int>, size: nat, stop: int, threshold: real,
                    prior: seq<seq<int>>): (o: Outcome)
    requires WellFormed(series) && Within(avail, 0, |series|) && size > 0
    ensures AllShaped(o.accepted)
    decreases stop - size
  {
    if size >= stop || |avail| < size then Outcome([], avail)
    else
      var cands := StableCandidates(series, avail, size, threshold);
      if |cands| == 0 then Escalate(series, avail, size + 1, stop, threshold, prior)
      else
        var acc := Accept(cands, Members(prior));
        assert AllShaped(acc) by {
          forall k | 0 <= k < |acc| ensures Shaped(acc[k].group) {
            assert acc[k] in acc;
            CandidateShape(series, avail, size, threshold, acc[k]);
          }
        }
        var left := Without(avail, Members(prior + IndicesOf(acc)));
        if |left| == 0 then Outcome(acc, left)
        else
          var rest := Escalate(series, left, size + 1, stop, threshold, prior + IndicesOf(acc));
          Outcome(acc + rest.accepted, rest.remaining)
  }

  /** Accepted groups so far, followed by what the rest of the pass produces. */
  function Join(done: seq<Candidate>, o: Outcome): Outcome
  {
    Outcome(done + o.accepted, o.remaining)
  }

  lemma OfAppend(a: seq<Candidate>, b: seq<Candidate>)
    ensures IndicesOf(a + b) == IndicesOf(a) + IndicesOf(b)
    ensures GroupsOf(a + b) == GroupsOf(a) + GroupsOf(b)
    ensures AllShaped(a) && AllShaped(b) ==> AllShaped(a + b) && SlotSumsOf(a + b) == SlotSumsOf(a) + SlotSumsOf(b)
  {
  }

  lemma OfSnoc(a: seq<Candidate>, c: Candidate)
    requires AllShaped(a) && Shaped(c.group)
    ensures IndicesOf(a + [c]) == IndicesOf(a) + [c.indices]
    ensures GroupsOf(a + [c]) == GroupsOf(a) + [c.group]
    ensures AllShaped(a + [c]) && SlotSumsOf(a + [c]) == SlotSumsOf(a) + [LoadSum(c.group)]
  {
  }

  /** One more candidate: `Accept` of a prefix extended by one. */
  lemma AcceptStep(cands: seq<Candidate>, j: nat, used0: set<int>)
    requires j < |cands|
    ensures Accept(cands[..j + 1], used0) ==
      var prev := Accept(cands[..j], used0);
      if IsGroupAvailable(cands[j].indices, used0 + Members(IndicesOf(prev))) then prev + [cands[j]] else prev
  {
    assert cands[..j + 1][..j] == cands[..j];
  }

  /** The three output lists are the lists `g0`, `i0`, `s0` followed by the accepted
      candidates' groups, index lists and slot sums. */
  predicate Extends(groups: seq<seq<Series>>, indices: seq<seq<int>>, slotSums: seq<Series>,
                    g0: seq<seq<Series>>, i0: seq<seq<int>>, s0: seq<Series>, acc: seq<Candidate>)
  {
    AllShaped(acc) && groups == g0 + GroupsOf(acc) && indices == i0 + IndicesOf(acc) &&
    slotSums == s0 + SlotSumsOf(acc)
  }

  lemma ExtendsSnoc(groups: seq<seq<Series>>, indices: seq<seq<int>>, slotSums: seq<Series>,
                    g0: seq<seq<Series>>, i0: seq<seq<int>>, s0: seq<Series>, acc: seq<Candidate>, c: Candidate)
    requires Extends(groups, indices, slotSums, g0, i0, s0, acc) && Shaped(c.group)
    ensures Extends(groups + [c.group], indices + [c.indices], slotSums + [LoadSum(c.group)], g0, i0, s0, acc + [c])
  {
    OfSnoc(acc, c);
  }

  /** The inner loop over the sorted candidates: each one whose indices are all unused is
      appended to the output lists and its indices marked used. */
  method AcceptGroups(cands: seq<Candidate>, used0: set<int>, out: GroupLists) returns (used: set<int>)
    requires forall x :: x in cands ==> Shaped(x.group)
    modifies out
    ensures used == used0 + Members(IndicesOf(Accept(cands, used0)))
    ensures Extends(out.groups, out.indices, out.slotSums, old(out.groups), old(out.indices), old(out.slotSums),
                    Accept(cands, used0))
  {
    used := used0;
    ghost var taken: seq<Candidate> := [];
    var j := 0;
    while j < |cands|
      invariant 0 <= j <= |cands|
      invariant taken == Accept(cands[..j], used0)
      invariant used == used0 + Members(IndicesOf(taken))
      invariant Extends(out.groups, out.indices, out.slotSums, old(out.groups), old(out.indices), old(out.slotSums), taken)
    {
      used, taken := AcceptCandidate(cands, j, used0, used, taken, old(out.groups), old(out.indices),
                                     old(out.slotSums), out);
      j := j + 1;
    }
    assert cands[..|cands|] == cands;
  }

  /** One turn of the inner loop: accept candidate j when none of its indices is used. */
  method AcceptCandidate(cands: seq<Candidate>, j: nat, used0: set<int>, used: set<int>,
                         ghost taken: seq<Candidate>, ghost g0: seq<seq<Series>>, ghost i0: seq<seq<int>>,
                         ghost s0: seq<Series>, out: GroupLists)
    returns (used': set<int>, ghost taken': seq<Candidate>)
    requires j < |cands| && forall x :: x in cands ==> Shaped(x.group)
    requires taken == Accept(cands[..j], used0) && used == used0 + Members(IndicesOf(taken))
    requires Extends(out.groups, out.indices, out.slotSums, g0, i0, s0, taken)
    modifies out
    ensures taken' == Accept(cands[..j + 1], used0) && used' == used0 + Members(IndicesOf(taken'))
    ensures Extends(out.groups, out.indices, out.slotSums, g0, i0, s0, taken')
  {
    used', taken' := used, taken;
    var c := cands[j];
    AcceptStep(cands, j, used0);
    if IsGroupAvailable(c.indices, used) {
      assert c in cands;
      var sums := CalculateLoadSum(c.group);
      ExtendsSnoc(out.groups, out.indices, out.slotSums, g0, i0, s0, taken, c);
      out.Append(c.group, c.indices, sums);
      MembersSnoc(IndicesOf(taken), c.indices);
      OfSnoc(taken, c);
      used' := used + Elements(c.indices);
      taken' := taken + [c];
    }
  }

  lemma ExtendsAppend(g0: seq<seq<Series>>, i0: seq<seq<int>>, s0: seq<Series>,
                      g1: seq<seq<Series>>, i1: seq<seq<int>>, s1: seq<Series>,
                      g2: seq<seq<Series>>, i2: seq<seq<int>>, s2: seq<Series>,
                      a: seq<Candidate>, b: seq<Candidate>)
    requires Extends(g1, i1, s1, g0, i0, s0, a) && Extends(g2, i2, s2, g1, i1, s1, b)
    ensures Extends(g2, i2, s2, g0, i0, s0, a + b)
  {
    OfAppend(a, b);
    assert g2 == (g0 + GroupsOf(a)) + GroupsOf(b) == g0 + (GroupsOf(a) + GroupsOf(b));
    assert i2 == (i0 + IndicesOf(a)) + IndicesOf(b) == i0 + (IndicesOf(a) + IndicesOf(b));
    assert s2 == (s0 + SlotSumsOf(a)) + SlotSumsOf(b) == s0 + (SlotSumsOf(a) + SlotSumsOf(b));
  }

  /** Past the last size, or too few indices left for this one: nothing more is accepted. */
  lemma EscalateDone(series: seq<Series>, avail: seq<int>, size: nat, stop: int, threshold: real,
                     prior: seq<seq<int>>)
    requires WellFormed(series) && Within(avail, 0, |series|) && size > 0
    requires size >= stop || |avail| < size
    ensures Escalate(series, avail, size, stop, threshold, prior) == Outcome([], avail)
  {
  }

  /** A size without stable candidates is skipped. */
  lemma EscalateSkip(series: seq<Series>, avail: seq<int>, size: nat, stop: int, threshold: real,
                     prior: seq<seq<int>>)
    requires WellFormed(series) && Within(avail, 0, |series|) && size > 0
    requires size < stop && |avail| >= size && |StableCandidates(series, avail, size, threshold)| == 0
    ensures Escalate(series, avail, size, stop, threshold, prior) ==
      Escalate(series, avail, size + 1, stop, threshold, prior)
  {
  }

  /** One size with candidates: accept greedily, then go on with what is left. */
  lemma EscalateStep(series: seq<Series>, avail: seq<int>, size: nat, stop: int, threshold: real,
                     prior: seq<seq<int>>)
    requires WellFormed(series) && Within(avail, 0, |series|) && size > 0
    requires size < stop && |avail| >= size && |StableCandidates(series, avail, size, threshold)| > 0
    ensures var acc := Accept(StableCandidates(series, avail, size, threshold), Members(prior));
      var left := Without(avail, Members(prior + IndicesOf(acc)));
      Escalate(series, avail, size, stop, threshold, prior) ==
        Join(acc, Escalate(series, left, size + 1, stop, threshold, prior + IndicesOf(acc)))
  {
  }

  lemma JoinJoin(a: seq<Candidate>, b: seq<Candidate>, o: Outcome)
    ensures Join(a, Join(b, o)) == Join(a + b, o)
  {
    assert a + (b + o.accepted) == (a + b) + o.accepted;
  }

  /** One iteration of the size loop, for a size that is in range and has enough
      available indices: generate the stable candidates, accept them greedily and drop
      the used indices (`continue` when there are no candidates). */
  method TrySize(series: seq<Series>, avail: seq<int>, size: nat, stop: int, threshold: real, out: GroupLists)
    returns (next: seq<int>, ghost taken: seq<Candidate>)
    requires WellFormed(series) && Within(avail, 0, |series|) && 2 <= size < stop && |avail| >= size
    modifies out
    ensures Within(next, 0, |series|)
    ensures Escalate(series, avail, size, stop, threshold, old(out.indices)) ==
      Join(taken, Escalate(series, next, size + 1, stop, threshold, out.indices))
    ensures Extends(out.groups, out.indices, out.slotSums, old(out.groups), old(out.indices), old(out.slotSums), taken)
  {
    var cands := GenerateStableGroups(avail, series, size, threshold);
    if |cands| == 0 {
      EscalateSkip(series, avail, size, stop, threshold, out.indices);
      assert GroupsOf([]) == [] && IndicesOf([]) == [] && SlotSumsOf([]) == [];
      assert out.groups == out.groups + [] && out.indices == out.indices + [] && out.slotSums == out.slotSums + [];
      return avail, [];
    }
    forall x | x in cands ensures Shaped(x.group) {
      CandidateShape(series, avail, size, threshold, x);
    }
    taken := Accept(cands, Members(out.indices));
    EscalateStep(series, avail, size, stop, threshold, out.indices);
    var used := AcceptGroups(cands, Members(out.indices), out);
    MembersAppend(old(out.indices), IndicesOf(taken));
    next := Without(avail, used);
  }

  /** `group_original_microservices`: try group sizes 2, 3, ... in turn; the indices left
      over and the groups appended to `out` are those of `Escalate` from size 2. */
  method GroupOriginalMicroservices(series: seq<Series>, avail0: seq<int>, maxSize: int, threshold: real, out: GroupLists)
    returns (avail: seq<int>)
    requires WellFormed(series) && Within(avail0, 0, |series|)
    modifies out
    ensures var o := Escalate(series, avail0, 2, Stop(maxSize, |series|), threshold, old(out.indices));
      avail == o.remaining &&
      Extends(out.groups, out.indices, out.slotSums, old(out.groups), old(out.indices), old(out.slotSums), o.accepted)
  {
    var stop := Stop(maxSize, |series|);
    ghost var done: seq<Candidate> := [];
    avail := avail0;
    var size := 2;
    assert GroupsOf(done) == [] && IndicesOf(done) == [] && SlotSumsOf(done) == [];
    assert out.groups == out.groups + [] && out.indices == out.indices + [] && out.slotSums == out.slotSums + [];
    ghost var whole := Escalate(series, avail0, 2, stop, threshold, out.indices);
    assert whole == Escalate(series, avail0, 2, Stop(maxSize, |series|), threshold, old(out.indices));
    assert whole == Join(done, whole);
    while size < stop
      invariant 2 <= size && Within(avail, 0, |series|)
      invariant whole == Join(done, Escalate(series, avail, size, stop, threshold, out.indices))
      invariant Extends(out.groups, out.indices, out.slotSums, old(out.groups), old(out.indices), old(out.slotSums), done)
      decreases stop - size
    {
      if |avail| < size {
        EscalateDone(series, avail, size, stop, threshold, out.indices);
        break;
      }
      ghost var g1, i1, s1 := out.groups, out.indices, out.slotSums;
      var next;
      ghost var taken;
      next, taken := TrySize(series, avail, size, stop, threshold, out);
      ExtendsAppend(old(out.groups), old(out.indices), old(out.slotSums), g1, i1, s1,
                    out.groups, out.indices, out.slotSums, done, taken);
      ghost var rest := Escalate(series, next, size + 1, stop, threshold, out.indices);
      assert Escalate(series, avail, size, stop, threshold, i1) == Join(taken, rest);
      assert whole == Join(done, Join(taken, rest));
      JoinJoin(done, taken, rest);
      done := done + taken;
      avail := next;
      assert whole == Join(done, rest);
      if |avail| == 0 {
        EscalateDone(series, avail, size + 1, stop, threshold, out.indices);
        break;
      }
      size := size + 1;
      assert rest == Escalate(series, avail, size, stop, threshold, out.indices);
    }
    if size >= stop {
      EscalateDone(series, avail, size, stop, threshold, out.indices);
    }
    assert whole == Outcome(done, avail);
  }

  /** `group_base_components`: the same size-by-size loop over the base components, into
      the temporary lists. The original indices of the components are only printed there. */
  method GroupBaseComponents(bases: seq<Series>, baseIdx: seq<int>, avail0: seq<int>, maxSize: int, threshold: real,
                             temp: GroupLists)
    returns (avail: seq<int>)
    requires WellFormed(bases) && Within(avail0, 0, |bases|)
    modifies temp
    ensures var o := Escalate(bases, avail0, 2, Stop(maxSize, |bases|), threshold, old(temp.indices));
      avail == o.remaining &&
      Extends(temp.groups, temp.indices, temp.slotSums, old(temp.groups), old(temp.indices), old(temp.slotSums), o.accepted)
  {
    avail := GroupOriginalMicroservices(bases, avail0, maxSize, threshold, temp);
  }
}

module GreedyProps {
  import opened SeqUtil
  import opened Stats
  import opened Candidates
  import opened Greedy

  /** What is asserted of every group a pass accepts at a size in `lo .. hi - 1`. */
  predicate GoodGroup(series: seq<Series>, x: Candidate, threshold: real, lo: int, hi: int)
  {
    lo <= |x.indices| < hi && Distinct(x.indices) && Within(x.indices, 0, |series|) &&
    x.group == Pick(series, x.indices) && Shaped(x.group) && |x.group[0]| > 0 &&
    Below(Stability(x.group), threshold)
  }

  /** Group sizes never decrease along the output. */
  predicate SizesAscend(acc: seq<Candidate>)
  {
    forall i, j :: 0 <= i < j < |acc| ==> |acc[i].indices| <= |acc[j].indices|
  }

  lemma AcceptedGood(series: seq<Series>, avail: seq<int>, size: nat, threshold: real, used: set<int>)
    requires WellFormed(series) && Within(avail, 0, |series|) && size > 0 && Distinct(avail)
    ensures var acc := Accept(StableCandidates(series, avail, size, threshold), used);
      forall x :: x in acc ==> GoodGroup(series, x, threshold, size, size + 1) && Elements(x.indices) <= Elements(avail)
  {
    var cands := StableCandidates(series, avail, size, threshold);
    forall x | x in Accept(cands, used)
      ensures GoodGroup(series, x, threshold, size, size + 1) && Elements(x.indices) <= Elements(avail)
    {
      CandidateShape(series, avail, size, threshold, x);
    }
  }

  /** Without the used indices of `prior` in `avail`, dropping them changes nothing. */
  lemma WithoutFresh(avail: seq<int>, used: set<int>, more: set<int>)
    requires forall x :: x in avail ==> x !in used
    ensures Without(avail, used + more) == Without(avail, more)
  {
    WithoutTwice(avail, used, more);
    WithoutNothing(avail, used);
  }

  /** The facts about one accepting step that the inductive lemmas below build on. */
  lemma StepFacts(series: seq<Series>, avail: seq<int>, size: nat, stop: int, threshold: real, prior: seq<seq<int>>)
    requires WellFormed(series) && Within(avail, 0, |series|) && size > 0 && Distinct(avail)
    requires forall x :: x in avail ==> x !in Members(prior)
    requires size < stop && |avail| >= size && |StableCandidates(series, avail, size, threshold)| > 0
    ensures var acc := Accept(StableCandidates(series, avail, size, threshold), Members(prior));
      var left := Without(avail, Members(prior + IndicesOf(acc)));
      left == Without(avail, Members(IndicesOf(acc))) &&
      Members(IndicesOf(acc)) <= Elements(avail) &&
      Distinct(Flat(IndicesOf(acc))) &&
      (forall x :: x in acc ==> GoodGroup(series, x, threshold, size, size + 1)) &&
      Within(left, 0, |series|) && Distinct(left) &&
      (forall x :: x in left ==> x !in Members(prior + IndicesOf(acc)))
  {
    var cands := StableCandidates(series, avail, size, threshold);
    var mp := Members(prior);
    var acc := Accept(cands, mp);
    forall x | x in cands ensures Distinct(x.indices) {
      CandidateShape(series, avail, size, threshold, x);
    }
    AcceptFacts(cands, mp);
    AcceptedGood(series, avail, size, threshold, mp);
    var m1 := Members(IndicesOf(acc));
    forall i | i in m1 ensures i in Elements(avail) {
      var k := FlatMemberInv(IndicesOf(acc), i);
      assert acc[k] in acc;
    }
    MembersAppend(prior, IndicesOf(acc));
    WithoutFresh(avail, mp, m1);
  }

  /** The indices a pass leaves available are exactly the ones it did not group, in their
      original order, and it groups only indices that were available. */
  predicate Covered(series: seq<Series>, avail: seq<int>, size: nat, stop: int, threshold: real, prior: seq<seq<int>>)
    requires WellFormed(series) && Within(avail, 0, |series|) && size > 0
  {
    var o := Escalate(series, avail, size, stop, threshold, prior);
    o.remaining == Without(avail, Members(IndicesOf(o.accepted))) &&
    Members(IndicesOf(o.accepted)) <= Elements(avail)
  }

  /** No index occurs in two groups a pass accepts, nor twice in one. */
  predicate Disjoint(series: seq<Series>, avail: seq<int>, size: nat, stop: int, threshold: real, prior: seq<seq<int>>)
    requires WellFormed(series) && Within(avail, 0, |series|) && size > 0
  {
    Distinct(Flat(IndicesOf(Escalate(series, avail, size, stop, threshold, prior).accepted)))
  }

  /** Every group a pass accepts has between `size` and `stop - 1` distinct members, is the
      picked series, has a CV below the threshold, and sizes never decrease. */
  predicate AllGood(series: seq<Series>, avail: seq<int>, size: nat, stop: int, threshold: real, prior: seq<seq<int>>)
    requires WellFormed(series) && Within(avail, 0, |series|) && size > 0
  {
    var acc := Escalate(series, avail, size, stop, threshold, prior).accepted;
    (forall x :: x in acc ==> GoodGroup(series, x, threshold, size, stop)) && SizesAscend(acc)
  }

  /** What a pass promises when it starts from distinct available indices none of which was
      grouped before. */
  predicate Fresh(series: seq<Series>, avail: seq<int>, size: nat, prior: seq<seq<int>>)
  {
    WellFormed(series) && Within(avail, 0, |series|) && size > 0 && Distinct(avail) &&
    forall x :: x in avail ==> x !in Members(prior)
  }

  lemma PassDone(series: seq<Series>, avail: seq<int>, size: nat, stop: int, threshold: real, prior: seq<seq<int>>)
    requires Fresh(series, avail, size, prior)
    requires size >= stop || |avail| < size
    ensures Covered(series, avail, size, stop, threshold, prior)
    ensures Disjoint(series, avail, size, stop, threshold, prior)
    ensures AllGood(series, avail, size, stop, threshold, prior)
  {
    EscalateDone(series, avail, size, stop, threshold, prior);
    WithoutNothing(avail, {});
    assert Members(IndicesOf([])) == {};
  }

  lemma PassSkip(series: seq<Series>, avail: seq<int>, size: nat, stop: int, threshold: real, prior: seq<seq<int>>)
    requires Fresh(series, avail, size, prior)
    requires size < stop && |avail| >= size && |StableCandidates(series, avail, size, threshold)| == 0
    requires Covered(series, avail, size + 1, stop, threshold, prior)
    requires Disjoint(series, avail, size + 1, stop, threshold, prior)
    requires AllGood(series, avail, size + 1, stop, threshold, prior)
    ensures Covered(series, avail, size, stop, threshold, prior)
    ensures Disjoint(series, avail, size, stop, threshold, prior)
    ensures AllGood(series, avail, size, stop, threshold, prior)
  {
    EscalateSkip(series, avail, size, stop, threshold, prior);
    var acc := Escalate(series, avail, size, stop, threshold, prior).accepted;
    forall x | x in acc ensures GoodGroup(series, x, threshold, size, stop) {
      assert GoodGroup(series, x, threshold, size + 1, stop);
    }
  }

  lemma CoveredStep(series: seq<Series>, avail: seq<int>, size: nat, stop: int, threshold: real, prior: seq<seq<int>>)
    requires Fresh(series, avail, size, prior)
    requires size < stop && |avail| >= size && |StableCandidates(series, avail, size, threshold)| > 0
    requires var acc := Accept(StableCandidates(series, avail, size, threshold), Members(prior));
      var p2 := prior + IndicesOf(acc);
      var left := Without(avail, Members(p2));
      Within(left, 0, |series|) && Covered(series, left, size + 1, stop, threshold, p2)
    ensures Covered(series, avail, size, stop, threshold, prior)
  {
    var acc := Accept(StableCandidates(series, avail, size, threshold), Members(prior));
    var p2 := prior + IndicesOf(acc);
    var left := Without(avail, Members(p2));
    StepFacts(series, avail, size, stop, threshold, prior);
    EscalateStep(series, avail, size, stop, threshold, prior);
    var rest := Escalate(series, left, size + 1, stop, threshold, p2);
    OfAppend(acc, rest.accepted);
    MembersAppend(IndicesOf(acc), IndicesOf(rest.accepted));
    WithoutTwice(avail, Members(IndicesOf(acc)), Members(IndicesOf(rest.accepted)));
  }

  lemma DisjointStep(series: seq<Series>, avail: seq<int>, size: nat, stop: int, threshold: real, prior: seq<seq<int>>)
    requires Fresh(series, avail, size, prior)
    requires size < stop && |avail| >= size && |StableCandidates(series, avail, size, threshold)| > 0
    requires var acc := Accept(StableCandidates(series, avail, size, threshold), Members(prior));
      var p2 := prior + IndicesOf(acc);
      var left := Without(avail, Members(p2));
      Within(left, 0, |series|) && Covered(series, left, size + 1, stop, threshold, p2) &&
      Disjoint(series, left, size + 1, stop, threshold, p2)
    ensures Disjoint(series, avail, size, stop, threshold, prior)
  {
    var acc := Accept(StableCandidates(series, avail, size, threshold), Members(prior));
    var p2 := prior + IndicesOf(acc);
    var left := Without(avail, Members(p2));
    StepFacts(series, avail, size, stop, threshold, prior);
    EscalateStep(series, avail, size, stop, threshold, prior);
    var rest := Escalate(series, left, size + 1, stop, threshold, p2);
    OfAppend(acc, rest.accepted);
    FlatAppend(IndicesOf(acc), IndicesOf(rest.accepted));
    DistinctAppend(Flat(IndicesOf(acc)), Flat(IndicesOf(rest.accepted)));
    forall x | x in Flat(IndicesOf(acc)) ensures x !in Flat(IndicesOf(rest.accepted)) {
      assert x in Members(IndicesOf(acc));
      MembersAppend(prior, IndicesOf(acc));
      assert x !in left;
      assert x !in Members(IndicesOf(rest.accepted));
    }
  }

  lemma GoodStep(series: seq<Series>, avail: seq<int>, size: nat, stop: int, threshold: real, prior: seq<seq<int>>)
    requires Fresh(series, avail, size, prior)
    requires size < stop && |avail| >= size && |StableCandidates(series, avail, size, threshold)| > 0
    requires var acc := Accept(StableCandidates(series, avail, size, threshold), Members(prior));
      var p2 := prior + IndicesOf(acc);
      var left := Without(avail, Members(p2));
      Within(left, 0, |series|) && AllGood(series, left, size + 1, stop, threshold, p2)
    ensures AllGood(series, avail, size, stop, threshold, prior)
  {
    var acc := Accept(StableCandidates(series, avail, size, threshold), Members(prior));
    var p2 := prior + IndicesOf(acc);
    var left := Without(avail, Members(p2));
    StepFacts(series, avail, size, stop, threshold, prior);
    EscalateStep(series, avail, size, stop, threshold, prior);
    var rest := Escalate(series, left, size + 1, stop, threshold, p2).accepted;
    assert Escalate(series, avail, size, stop, threshold, prior).accepted == acc + rest;
    GoodAppend(series, acc, rest, threshold, size, stop);
  }

  lemma GoodAppend(series: seq<Series>, acc: seq<Candidate>, rest: seq<Candidate>, threshold: real, size: int, stop: int)
    requires forall x :: x in acc ==> GoodGroup(series, x, threshold, size, size + 1)
    requires forall x :: x in rest ==> GoodGroup(series, x, threshold, size + 1, stop)
    requires SizesAscend(rest) && size < stop
    ensures forall x :: x in acc + rest ==> GoodGroup(series, x, threshold, size, stop)
    ensures SizesAscend(acc + rest)
  {
    var all := acc + rest;
    forall x | x in all ensures GoodGroup(series, x, threshold, size, stop) {
      if x !in acc {
        assert x in rest;
      }
    }
    forall i, j | 0 <= i < j < |all| ensures |all[i].indices| <= |all[j].indices| {
      if j < |acc| {
        assert all[i] in acc && all[j] in acc;
      } else if i < |acc| {
        assert all[i] in acc;
        assert all[j] == rest[j - |acc|] && rest[j - |acc|] in rest;
      } else {
        assert all[i] == rest[i - |acc|] && all[j] == rest[j - |acc|];
      }
    }
  }

  /** What an accepting step leaves over is a fresh start for the next size. */
  lemma LeftFresh(series: seq<Series>, avail: seq<int>, size: nat, stop: int, threshold: real, prior: seq<seq<int>>)
    requires Fresh(series, avail, size, prior)
    requires size < stop && |avail| >= size && |StableCandidates(series, avail, size, threshold)| > 0
    ensures var acc := Accept(StableCandidates(series, avail, size, threshold), Members(prior));
      var p2 := prior + IndicesOf(acc);
      Fresh(series, Without(avail, Members(p2)), size + 1, p2)
  {
    StepFacts(series, avail, size, stop, threshold, prior);
  }

  /** A grouping pass partitions the available indices: each is in exactly one accepted
      group or still available, in its original order; every accepted group has between
      `size` and `stop - 1` distinct members and a CV below the threshold; and group sizes
      never decrease. */
  lemma {:induction false} EscalateFacts(series: seq<Series>, avail: seq<int>, size: nat, stop: int, threshold: real,
                                         prior: seq<seq<int>>)
    requires Fresh(series, avail, size, prior)
    ensures Covered(series, avail, size, stop, threshold, prior)
    ensures Disjoint(series, avail, size, stop, threshold, prior)
    ensures AllGood(series, avail, size, stop, threshold, prior)
    decreases stop - size, 1
  {
    if size >= stop || |avail| < size {
      PassDone(series, avail, size, stop, threshold, prior);
    } else {
      EscalateFactsAt(series, avail, size, stop, threshold, prior);
    }
  }

  /** The inductive step of `EscalateFacts`, for a size that is tried. */
  lemma {:induction false} EscalateFactsAt(series: seq<Series>, avail: seq<int>, size: nat, stop: int, threshold: real,
                                           prior: seq<seq<int>>)
    requires Fresh(series, avail, size, prior)
    requires size < stop && |avail| >= size
    ensures Covered(series, avail, size, stop, threshold, prior)
    ensures Disjoint(series, avail, size, stop, threshold, prior)
    ensures AllGood(series, avail, size, stop, threshold, prior)
    decreases stop - size, 0
  {
    if |StableCandidates(series, avail, size, threshold)| == 0 {
      EscalateFacts(series, avail, size + 1, stop, threshold, prior);
      PassSkip(series, avail, size, stop, threshold, prior);
    } else {
      var acc := Accept(StableCandidates(series, avail, size, threshold), Members(prior));
      var p2 := prior + IndicesOf(acc);
      var left := Without(avail, Members(p2));
      LeftFresh(series, avail, size, stop, threshold, prior);
      EscalateFacts(series, left, size + 1, stop, threshold, p2);
      CoveredStep(series, avail, size, stop, threshold, prior);
      DisjointStep(series, avail, size, stop, threshold, prior);
      GoodStep(series, avail, size, stop, threshold, prior);
    }
  }
}
