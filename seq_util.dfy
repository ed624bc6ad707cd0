/** Sequence helpers shared by the grouping model: index ranges, distinctness,
    flattening a list of index lists, and the list comprehension that drops used indices. */
module SeqUtil {

  /** No value occurs twice. */
  predicate Distinct(s: seq<int>)
  {
    forall i, j :: 0 <= i < j < |s| ==> s[i] != s[j]
  }

  /** `list(range(n))` */
  function Range(n: nat): (r: seq<int>)
    ensures |r| == n
    ensures forall i :: 0 <= i < n ==> r[i] == i
  {
    seq(n, i => i)
  }

  lemma RangeDistinct(n: nat)
    ensures Distinct(Range(n))
    ensures forall x :: x in Range(n) <==> 0 <= x < n
  {
    forall x | 0 <= x < n ensures x in Range(n) { assert Range(n)[x] == x; }
  }

  /** Concatenation of a list of index lists, in order (`idx for group in groups for idx in group`). */
  function Flat(ixs: seq<seq<int>>): seq<int>
  {
    if |ixs| == 0 then [] else Flat(ixs[..|ixs| - 1]) + ixs[|ixs| - 1]
  }

  /** The set of every index mentioned by a list of index lists. */
  function Members(ixs: seq<seq<int>>): set<int>
  {
    set x | x in Flat(ixs)
  }

  lemma {:induction false} FlatAppend(a: seq<seq<int>>, b: seq<seq<int>>)
    ensures Flat(a + b) == Flat(a) + Flat(b)
    decreases |b|
  {
    if |b| == 0 {
      assert a + b == a;
    } else {
      var b' := b[..|b| - 1];
      var last := b[|b| - 1];
      assert (a + b)[..|a + b| - 1] == a + b' && (a + b)[|a + b| - 1] == last;
      assert Flat(a + b) == Flat(a + b') + last;
      FlatAppend(a, b');
      assert Flat(b) == Flat(b') + last;
      assert Flat(a) + Flat(b') + last == Flat(a) + (Flat(b') + last);
    }
  }

  lemma {:induction false} FlatMember(ixs: seq<seq<int>>, k: int, x: int)
    requires 0 <= k < |ixs| && x in ixs[k]
    ensures x in Flat(ixs)
    decreases |ixs|
  {
    if k < |ixs| - 1 {
      FlatMember(ixs[..|ixs| - 1], k, x);
    }
  }

  lemma {:induction false} FlatMemberInv(ixs: seq<seq<int>>, x: int) returns (k: int)
    requires x in Flat(ixs)
    ensures 0 <= k < |ixs| && x in ixs[k]
    decreases |ixs|
  {
    if x in ixs[|ixs| - 1] {
      k := |ixs| - 1;
    } else {
      k := FlatMemberInv(ixs[..|ixs| - 1], x);
    }
  }

  lemma MembersAppend(a: seq<seq<int>>, b: seq<seq<int>>)
    ensures Members(a + b) == Members(a) + Members(b)
  {
    FlatAppend(a, b);
  }

  /** `[idx for idx in xs if idx not in used]`: the entries of `xs` that are not used, in order. */
  function Without(xs: seq<int>, used: set<int>): (r: seq<int>)
    ensures |r| <= |xs|
    ensures forall x :: x in r <==> x in xs && x !in used
    ensures Distinct(xs) ==> Distinct(r)
  {
    if |xs| == 0 then []
    else
      var rest := Without(xs[1..], used);
      assert forall x :: x in xs[1..] ==> x in xs;
      if xs[0] in used then rest else [xs[0]] + rest
  }

  /** A concatenation has no repeats exactly when neither part has and they share nothing. */
  lemma DistinctAppend(a: seq<int>, b: seq<int>)
    ensures Distinct(a + b) <==> Distinct(a) && Distinct(b) && forall x :: x in a ==> x !in b
  {
    var ab := a + b;
    if Distinct(a) && Distinct(b) && forall x :: x in a ==> x !in b {
      forall i, j | 0 <= i < j < |ab| ensures ab[i] != ab[j] {
        if i < |a| && j >= |a| {
          assert ab[i] in a && ab[j] == b[j - |a|] && b[j - |a|] in b;
        } else if i >= |a| {
          assert ab[i] == b[i - |a|] && ab[j] == b[j - |a|];
        }
      }
    }
    if Distinct(ab) {
      forall i, j | 0 <= i < j < |a| ensures a[i] != a[j] {
        assert a[i] == ab[i] && a[j] == ab[j];
      }
      forall i, j | 0 <= i < j < |b| ensures b[i] != b[j] {
        assert b[i] == ab[|a| + i] && b[j] == ab[|a| + j];
      }
      forall i, j | 0 <= i < |a| && 0 <= j < |b| ensures a[i] != b[j] {
        assert ab[i] == a[i] && ab[|a| + j] == b[j];
      }
    }
  }

  /** Dropping in two rounds is dropping the union once. */
  lemma {:induction false} WithoutTwice(xs: seq<int>, a: set<int>, b: set<int>)
    ensures Without(Without(xs, a), b) == Without(xs, a + b)
  {
    if |xs| > 0 {
      WithoutTwice(xs[1..], a, b);
      var rest := Without(xs[1..], a);
      if xs[0] !in a {
        assert Without(xs, a) == [xs[0]] + rest;
        assert ([xs[0]] + rest)[1..] == rest;
      }
    }
  }

  /** Dropping values that do not occur changes nothing. */
  lemma {:induction false} WithoutNothing(xs: seq<int>, a: set<int>)
    requires forall x :: x in xs ==> x !in a
    ensures Without(xs, a) == xs
  {
    if |xs| > 0 {
      assert xs[0] in xs;
      var x0 := xs[0];
      assert x0 !in a;
      assert forall x :: x in xs[1..] ==> x in xs;
      WithoutNothing(xs[1..], a);
      assert xs == [xs[0]] + xs[1..];
    }
  }
}
