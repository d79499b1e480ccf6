/** Thinning of the plotted rows: while there are more rows than
    `max_measures`, keep every other row (`df.iloc[::2]`). */
module Decimation {
  import opened Basics

  /** `iloc[::2]`: the rows at even positions, so `ceil(n / 2)` of them. */
  function EveryOther<T>(s: seq<T>): (r: seq<T>)
    ensures |r| == (|s| + 1) / 2
    ensures forall i :: 0 <= i < |r| ==> r[i] == s[2 * i]
  {
    if |s| <= 1 then s else [s[0]] + EveryOther(s[2..])
  }

  /** The rows after `k` rounds of thinning. */
  function Halve<T>(s: seq<T>, k: nat): seq<T>
    decreases k
  {
    if k == 0 then s else Halve(EveryOther(s), k - 1)
  }

  function Pow2(k: nat): (p: nat)
    ensures p >= 1
  {
    if k == 0 then 1 else 2 * Pow2(k - 1)
  }

  /** Where row `i` of the frame left after `k` rounds sat in the input;
      each round doubles it. */
  function Position(k: nat, i: nat): nat
  {
    if k == 0 then i else 2 * Position(k - 1, i)
  }

  /** The position is `i * 2^k`. */
  lemma {:induction false} PositionIsScaled(k: nat, i: nat)
    ensures Position(k, i) == Pow2(k) * i
  {
    if k > 0 {
      PositionIsScaled(k - 1, i);
      DoubledProduct(Pow2(k - 1), i);
    }
  }

  lemma DoubledProduct(p: int, i: int)
    ensures (2 * p) * i == 2 * (p * i)
  {
  }

  /** Later rows come from later input positions. */
  lemma {:induction false} PositionIncreasing(k: nat, i: nat, j: nat)
    requires i < j
    ensures Position(k, i) < Position(k, j)
  {
    if k > 0 {
      PositionIncreasing(k - 1, i, j);
    }
  }

  /** After `k` rounds, row `i` is the input row at `Position(k, i)`. */
  lemma {:induction false} HalveIsStrided<T>(s: seq<T>, k: nat)
    ensures forall i :: 0 <= i < |Halve(s, k)| ==> Position(k, i) < |s| && Halve(s, k)[i] == s[Position(k, i)]
    decreases k
  {
    if k > 0 {
      var e := EveryOther(s);
      HalveIsStrided(e, k - 1);
      var h := Halve(s, k);
      assert h == Halve(e, k - 1);
      forall i | 0 <= i < |h|
        ensures Position(k, i) < |s| && h[i] == s[Position(k, i)]
      {
        var j := Position(k - 1, i);
        assert j < |e| && h[i] == e[j];
      }
    }
  }

  /** The number of rounds the loop runs; it ends only if `max_measures`
      is positive or the frame is already small enough. */
  function Rounds<T>(s: seq<T>, maxMeasures: int): nat
    requires maxMeasures >= 1 || |s| <= maxMeasures
    decreases |s|
  {
    if |s| <= maxMeasures then 0 else 1 + Rounds(EveryOther(s), maxMeasures)
  }

  /** The frame the loop ends with. It fits the bound, is left alone when
      it already fits, is not thinned more than needed (one round fewer
      would not fit) and keeps the first row. */
  function Decimated<T>(s: seq<T>, maxMeasures: int): (r: seq<T>)
    requires maxMeasures >= 1 || |s| <= maxMeasures
    ensures |r| <= maxMeasures
    ensures |s| <= maxMeasures ==> r == s
    ensures |s| > maxMeasures ==> 2 * |r| > maxMeasures
    ensures |s| > 0 ==> |r| > 0 && r[0] == s[0]
    ensures r == Halve(s, Rounds(s, maxMeasures))
    decreases |s|
  {
    if |s| <= maxMeasures then s else Decimated(EveryOther(s), maxMeasures)
  }

  /** The input positions of the first `n` rows after `k` rounds. */
  function Positions(k: nat, n: nat): (idx: seq<int>)
    ensures |idx| == n
    ensures forall i :: 0 <= i < n ==> idx[i] == Position(k, i)
  {
    seq(n, i requires 0 <= i < n => Position(k, i))
  }

  /** The surviving rows are the input rows at positions `0, p, 2p, ...`
      for `p = 2^k`, so they form an order-preserving subsequence of the
      input. */
  lemma DecimatedIsSubsequence<T>(s: seq<T>, maxMeasures: int)
    requires maxMeasures >= 1 || |s| <= maxMeasures
    ensures var r := Decimated(s, maxMeasures);
      SubsequenceAt(r, s, Positions(Rounds(s, maxMeasures), |r|))
    ensures Subsequence(Decimated(s, maxMeasures), s)
  {
    var r, k := Decimated(s, maxMeasures), Rounds(s, maxMeasures);
    var idx := Positions(k, |r|);
    HalveIsStrided(s, k);
    forall i, j | 0 <= i < j < |idx| ensures idx[i] < idx[j] {
      PositionIncreasing(k, i, j);
    }
    assert SubsequenceAt(r, s, idx);
  }

  /** With `max_measures <= 0` the loop condition `len(df) > max_measures`,
      once true, holds after every round: the loop never ends. This covers a
      non-empty frame and, for a negative bound, an empty one too. */
  lemma {:induction false} DecimationNeverEnds<T>(s: seq<T>, maxMeasures: int, k: nat)
    requires maxMeasures <= 0 && |s| > maxMeasures
    ensures |Halve(s, k)| > maxMeasures
    decreases k
  {
    if k > 0 {
      DecimationNeverEnds(EveryOther(s), maxMeasures, k - 1);
    }
  }

  /** The thinning the loop is meant to do: a bound of at least one thins
      as the loop does, and a bound that cannot be met (zero or negative)
      leaves the frame whole instead of looping forever. It agrees with the
      loop wherever the loop ends, fits a positive bound, and keeps rows
      of the input in their order. */
  function BoundedFrame<T>(s: seq<T>, maxMeasures: int): (r: seq<T>)
    ensures maxMeasures >= 1 || |s| <= maxMeasures ==> r == Decimated(s, maxMeasures)
    ensures maxMeasures >= 1 ==> |r| <= maxMeasures
    ensures maxMeasures <= 0 ==> r == s
    ensures |s| > 0 ==> |r| > 0 && r[0] == s[0]
    ensures Subsequence(r, s)
  {
    if maxMeasures >= 1 then
      DecimatedIsSubsequence(s, maxMeasures);
      Decimated(s, maxMeasures)
    else
      assert SubsequenceAt(s, s, Positions(0, |s|));
      s
  }

  /** The thinning loop, run on the frame the query returned. */
  method Decimate<T>(rows: seq<T>, maxMeasures: int) returns (shown: seq<T>)
    requires maxMeasures >= 1 || |rows| <= maxMeasures
    ensures shown == Decimated(rows, maxMeasures)
  {
    shown := rows;
    while |shown| > maxMeasures
      invariant maxMeasures >= 1 || |shown| <= maxMeasures
      invariant Decimated(shown, maxMeasures) == Decimated(rows, maxMeasures)
      decreases |shown|
    {
      shown := EveryOther(shown);
    }
  }
}
