/** Exact real arithmetic standing in for the floating-point reductions the
    analysis uses: sums and means (pandas `mean`, which skips missing values),
    maxima and minima, and rounding to a number of decimal places (pandas
    `round`, which rounds halves to the even neighbour). */
module Numbers {
  import opened Wrappers

  function Sum(s: seq<real>): real {
    if |s| == 0 then 0.0 else Sum(s[..|s| - 1]) + s[|s| - 1]
  }

  /** The arithmetic mean of a non-empty sequence. */
  function Average(s: seq<real>): real
    requires |s| > 0
  {
    Sum(s) / |s| as real
  }

  /** pandas `mean` over the present values: NaN (`None`) when there are none. */
  function Mean(s: seq<real>): (r: Option<real>)
    ensures r.None? <==> |s| == 0
  {
    if |s| == 0 then None else Some(Average(s))
  }

  /** The total that `count` values with mean `mean` add up to. */
  function Weighted(mean: real, count: nat): real {
    mean * count as real
  }

  /** A mean times the number of values it was taken over is their sum. */
  lemma MeanTimesSize(s: seq<real>)
    requires |s| > 0
    ensures Weighted(Mean(s).value, |s|) == Sum(s)
  {
    var n := |s| as real;
    assert Mean(s).value == Sum(s) / n;
  }

  /** Splitting values into two non-empty groups, the overall mean is the
      size-weighted combination of the group means. */
  lemma WeightedMean(a: seq<real>, b: seq<real>, all: seq<real>)
    requires |a| > 0 && |b| > 0
    requires |all| == |a| + |b| && Sum(all) == Sum(a) + Sum(b)
    ensures Mean(all).Some?
    ensures Weighted(Mean(all).value, |all|) == Weighted(Mean(a).value, |a|) + Weighted(Mean(b).value, |b|)
  {
    MeanTimesSize(a);
    MeanTimesSize(b);
    MeanTimesSize(all);
  }

  /** A sum of values in [lo, hi] lies between |s|·lo and |s|·hi. */
  lemma {:induction false} SumBounds(s: seq<real>, lo: real, hi: real)
    requires forall i :: 0 <= i < |s| ==> lo <= s[i] <= hi
    ensures |s| as real * lo <= Sum(s) <= |s| as real * hi
  {
    if |s| > 0 {
      SumBounds(s[..|s| - 1], lo, hi);
    }
  }

  /** The mean of values in [lo, hi] lies in [lo, hi]. */
  lemma MeanBounds(s: seq<real>, lo: real, hi: real)
    requires forall i :: 0 <= i < |s| ==> lo <= s[i] <= hi
    ensures Mean(s).Some? ==> lo <= Mean(s).value <= hi
  {
    if |s| > 0 {
      SumBounds(s, lo, hi);
      var n := |s| as real;
      assert n * lo <= Sum(s) <= n * hi;
      assert lo <= Sum(s) / n <= hi;
    }
  }

  lemma {:induction false} SumAppend(s: seq<real>, t: seq<real>)
    ensures Sum(s + t) == Sum(s) + Sum(t)
  {
    if |t| > 0 {
      var t' := t[..|t| - 1];
      assert (s + t)[..|s + t| - 1] == s + t';
      SumAppend(s, t');
    } else {
      assert s + t == s;
    }
  }

  function Max(s: seq<real>): (m: real)
    requires |s| > 0
    ensures m in s
    ensures forall i :: 0 <= i < |s| ==> s[i] <= m
  {
    if |s| == 1 then s[0]
    else
      var m' := Max(s[..|s| - 1]);
      assert s == s[..|s| - 1] + [s[|s| - 1]];
      if s[|s| - 1] > m' then s[|s| - 1] else m'
  }

  function Min(s: seq<real>): (m: real)
    requires |s| > 0
    ensures m in s
    ensures forall i :: 0 <= i < |s| ==> m <= s[i]
  {
    if |s| == 1 then s[0]
    else
      var m' := Min(s[..|s| - 1]);
      assert s == s[..|s| - 1] + [s[|s| - 1]];
      if s[|s| - 1] < m' then s[|s| - 1] else m'
  }

  /** `max - min` bounds every difference of two elements and is attained by
      one; for elements in [lo, hi] it lies in [0, hi - lo]. */
  lemma Spread(s: seq<real>, lo: real, hi: real)
    requires |s| > 0
    ensures forall i, j :: 0 <= i < |s| && 0 <= j < |s| ==> s[i] - s[j] <= Max(s) - Min(s)
    ensures exists i, j :: 0 <= i < |s| && 0 <= j < |s| && s[i] - s[j] == Max(s) - Min(s)
    ensures (forall i :: 0 <= i < |s| ==> lo <= s[i] <= hi) ==> 0.0 <= Max(s) - Min(s) <= hi - lo
  {
    var i :| 0 <= i < |s| && s[i] == Max(s);
    var j :| 0 <= j < |s| && s[j] == Min(s);
    assert s[i] - s[j] == Max(s) - Min(s);
  }

  /** The integer nearest to `x`; a tie goes to the even neighbour. */
  function RoundHalfEven(x: real): (k: int)
    ensures x - 0.5 <= k as real <= x + 0.5
  {
    var f := x.Floor;
    var frac := x - f as real;
    if frac < 0.5 then f
    else if frac > 0.5 then f + 1
    else if f % 2 == 0 then f
    else f + 1
  }

  /** A value halfway between two integers rounds to the even one. */
  lemma RoundHalfEvenTies(x: real)
    ensures RoundHalfEven(x) as real - x == 0.5 || x - RoundHalfEven(x) as real == 0.5 ==> RoundHalfEven(x) % 2 == 0
  {
  }

  /** `x` rounded to the nearest multiple of `1 / scale`, ties to even:
      `Series.round(d)` is `Round(x, 10^d)`. */
  function Round(x: real, scale: nat): real
    requires scale > 0
  {
    RoundHalfEven(x * scale as real) as real / scale as real
  }

  /** `round(3)`, as applied to the group-difference results. */
  function Round3(x: real): real {
    Round(x, 1000)
  }

  /** `round(2)`, as applied to the missing-value percentages. */
  function Round2(x: real): real {
    Round(x, 100)
  }

  lemma RoundHalfEvenOfInt(n: int)
    ensures RoundHalfEven(n as real) == n
  {
    assert (n as real).Floor == n;
  }

  lemma RoundHalfEvenMonotone(x: real, y: real)
    requires x <= y
    ensures RoundHalfEven(x) <= RoundHalfEven(y)
  {
    var fx, fy := x.Floor, y.Floor;
    if fx == fy {
      assert x - fx as real <= y - fy as real;
    } else {
      assert fx < fy;
      assert RoundHalfEven(x) <= fx + 1 <= fy <= RoundHalfEven(y);
    }
  }

  lemma MultiplyMonotone(x: real, y: real, c: real)
    requires x <= y && c >= 0.0
    ensures x * c <= y * c
  {
    assert y * c - x * c == (y - x) * c;
  }

  lemma DivideMonotone(x: real, y: real, c: real)
    requires x <= y && c > 0.0
    ensures x / c <= y / c
  {
    assert y / c - x / c == (y - x) / c;
  }

  lemma RoundUnfold(x: real, scale: nat)
    requires scale > 0
    ensures Round(x, scale) == RoundHalfEven(x * scale as real) as real / scale as real
  {
  }

  /** Rounding never reorders two values, so sorting by rounded keys agrees
      with the unrounded order wherever the rounded keys differ. */
  lemma RoundMonotone(x: real, y: real, scale: nat)
    requires x <= y && scale > 0
    ensures Round(x, scale) <= Round(y, scale)
  {
    RoundUnfold(x, scale);
    RoundUnfold(y, scale);
    MultiplyMonotone(x, y, scale as real);
    RoundHalfEvenMonotone(x * scale as real, y * scale as real);
    DivideMonotone(RoundHalfEven(x * scale as real) as real, RoundHalfEven(y * scale as real) as real, scale as real);
  }

  /** Rounding keeps a value within any integer bounds it already lies in
      (in particular [0, 1] for a p-value and [0, 100] for a percentage). */
  lemma RoundWithinIntBounds(x: real, scale: nat, lo: int, hi: int)
    requires lo as real <= x <= hi as real && scale > 0
    ensures lo as real <= Round(x, scale) <= hi as real
  {
    RoundMonotone(lo as real, x, scale);
    RoundMonotone(x, hi as real, scale);
    RoundOfInt(lo, scale);
    RoundOfInt(hi, scale);
  }

  /** An integer is unchanged by rounding. */
  lemma RoundOfInt(n: int, scale: nat)
    requires scale > 0
    ensures Round(n as real, scale) == n as real
  {
    var m := n * scale;
    var x := n as real * scale as real;
    IntProductAsReal(n, scale);
    RoundHalfEvenOfInt(m);
    assert RoundHalfEven(x) == m;
    RoundUnfold(n as real, scale);
    DivideBack(n as real, scale as real);
    assert x / scale as real == n as real;
  }

  lemma DivideBack(x: real, c: real)
    requires c != 0.0
    ensures x * c / c == x
  {
  }

  lemma IntProductAsReal(a: int, b: int)
    ensures a as real * b as real == (a * b) as real
  {
  }

  /** Rounding moves a value by at most half a unit in the last kept place. */
  lemma RoundError(x: real, scale: nat)
    requires scale > 0
    ensures x - 0.5 / scale as real <= Round(x, scale) <= x + 0.5 / scale as real
  {
    RoundUnfold(x, scale);
    DivideMonotone(x * scale as real - 0.5, RoundHalfEven(x * scale as real) as real, scale as real);
    DivideMonotone(RoundHalfEven(x * scale as real) as real, x * scale as real + 0.5, scale as real);
    assert (x * scale as real - 0.5) / scale as real == x - 0.5 / scale as real;
    assert (x * scale as real + 0.5) / scale as real == x + 0.5 / scale as real;
  }
}
