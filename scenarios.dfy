/** The unit-test scenarios of tests.py, stated as lemmas over the model. */
module Scenarios {
  import opened Stats

  lemma Sum4(a: real, b: real, c: real, d: real)
    ensures Sum([a, b, c, d]) == a + b + c + d
  {
    var s := [a, b, c, d];
    assert s[..3] == [a, b, c] && [a, b, c][..2] == [a, b] && [a, b][..1] == [a] && [a][..0] == [];
    assert Sum([a]) == a;
    assert Sum([a, b]) == a + b;
    assert Sum([a, b, c]) == a + b + c;
  }

  lemma SqDev4(a: real, b: real, c: real, d: real, m: real)
    ensures SqDev([a, b, c, d], m) == Sq(a - m) + Sq(b - m) + Sq(c - m) + Sq(d - m)
  {
    var s := [a, b, c, d];
    assert s[..3] == [a, b, c] && [a, b, c][..2] == [a, b] && [a, b][..1] == [a] && [a][..0] == [];
    assert SqDev([a], m) == Sq(a - m);
    assert SqDev([a, b], m) == Sq(a - m) + Sq(b - m);
    assert SqDev([a, b, c], m) == Sq(a - m) + Sq(b - m) + Sq(c - m);
  }

  /** Complementary series sum to a flat 5 per slot: CV 0. */
  lemma FlatPairHasZeroCv()
    ensures Stability([[1.0, 2.0, 3.0, 4.0], [4.0, 3.0, 2.0, 1.0]]) == Finite(0.0)
  {
    var g := [[1.0, 2.0, 3.0, 4.0], [4.0, 3.0, 2.0, 1.0]];
    LoadSumPair(g[0], g[1]);
    assert LoadSum(g) == [5.0, 5.0, 5.0, 5.0];
    Sum4(5.0, 5.0, 5.0, 5.0);
    SqDev4(5.0, 5.0, 5.0, 5.0, 5.0);
  }

  /** Opposite spikes leave the sums at 11, 1, 1, 11: a CV of 500/6 percent, above 50. */
  lemma SpikyPairIsAboveFifty()
    ensures Stability([[1.0, 0.0, 1.0, 10.0], [10.0, 1.0, 0.0, 1.0]]).Finite?
    ensures Stability([[1.0, 0.0, 1.0, 10.0], [10.0, 1.0, 0.0, 1.0]]).key > SignedSquare(50.0)
  {
    var g := [[1.0, 0.0, 1.0, 10.0], [10.0, 1.0, 0.0, 1.0]];
    LoadSumPair(g[0], g[1]);
    assert LoadSum(g) == [11.0, 1.0, 1.0, 11.0];
    Sum4(11.0, 1.0, 1.0, 11.0);
    SqDev4(11.0, 1.0, 1.0, 11.0, 6.0);
  }

  /** All-zero load: infinite CV. */
  lemma ZeroLoadIsInfinite()
    ensures Stability([[0.0, 0.0, 0.0, 0.0], [0.0, 0.0, 0.0, 0.0]]) == Infinite
  {
    var g := [[0.0, 0.0, 0.0, 0.0], [0.0, 0.0, 0.0, 0.0]];
    LoadSumPair(g[0], g[1]);
    assert LoadSum(g) == [0.0, 0.0, 0.0, 0.0];
    Sum4(0.0, 0.0, 0.0, 0.0);
  }

  /** A single rising series is not flat. */
  lemma SingleRisingSeriesIsNotFlat()
    ensures Stability([[1.0, 2.0, 3.0, 4.0]]) != Finite(0.0)
  {
    LoadSumSingleton([1.0, 2.0, 3.0, 4.0]);
    Sum4(1.0, 2.0, 3.0, 4.0);
    StabilityCases([[1.0, 2.0, 3.0, 4.0]]);
  }
}
