/** `pd.crosstab` of two row-aligned columns and the chi-square independence
    test applied to it. The test itself (scipy's `chi2_contingency`) is not
    modelled: every analysis takes it as a parameter `test`, a function of the
    table of counts whose p-value lies in [0, 1]. */
module Contingency {
  import opened Wrappers
  import opened Collections
  import opened Table

  type Prob = p: real | 0.0 <= p <= 1.0

  datatype ChiResult = ChiResult(statistic: real, pValue: Prob)

  /** Observed counts: `counts[i][j]` rows carry `rowLabels[i]` in the first
      column and `colLabels[j]` in the second. */
  datatype Crosstab<R, C> = Crosstab(rowLabels: seq<R>, colLabels: seq<C>, counts: seq<seq<nat>>)

  /** The pair of values of each row where both are present; a row with a
      missing value on either side takes no part in the table. */
  function Joint<R, C>(xs: seq<Option<R>>, ys: seq<Option<C>>): (r: seq<Option<(R, C)>>)
    requires |xs| == |ys|
    ensures |r| == |xs|
    ensures forall k :: 0 <= k < |xs| ==>
      r[k] == if xs[k].Some? && ys[k].Some? then Some((xs[k].value, ys[k].value)) else None
  {
    seq(|xs|, k requires 0 <= k < |xs| =>
      if xs[k].Some? && ys[k].Some? then Some((xs[k].value, ys[k].value)) else None)
  }

  function Firsts<R, C>(jt: seq<Option<(R, C)>>): (r: seq<Option<R>>)
    ensures |r| == |jt|
    ensures forall k :: 0 <= k < |jt| ==> r[k] == if jt[k].Some? then Some(jt[k].value.0) else None
  {
    seq(|jt|, k requires 0 <= k < |jt| => if jt[k].Some? then Some(jt[k].value.0) else None)
  }

  function Seconds<R, C>(jt: seq<Option<(R, C)>>): (r: seq<Option<C>>)
    ensures |r| == |jt|
    ensures forall k :: 0 <= k < |jt| ==> r[k] == if jt[k].Some? then Some(jt[k].value.1) else None
  {
    seq(|jt|, k requires 0 <= k < |jt| => if jt[k].Some? then Some(jt[k].value.1) else None)
  }

  /** Number of rows where both columns are present. */
  function BothPresent<R, C>(xs: seq<Option<R>>, ys: seq<Option<C>>): nat
    requires |xs| == |ys|
  {
    if |xs| == 0 then 0
    else BothPresent(xs[..|xs| - 1], ys[..|ys| - 1])
         + (if xs[|xs| - 1].Some? && ys[|ys| - 1].Some? then 1 else 0)
  }

  /** `pd.crosstab(xs, ys)`: one row per distinct observed value of `xs`, one
      column per distinct observed value of `ys`, each cell a count of rows.
      Labels are in order of first appearance (pandas sorts them; the
      chi-square test does not depend on the order of rows or columns). */
  function CrossTab<R(==), C(==)>(xs: seq<Option<R>>, ys: seq<Option<C>>): (t: Crosstab<R, C>)
    requires |xs| == |ys|
    ensures Distinct(t.rowLabels) && Distinct(t.colLabels)
    ensures |t.counts| == |t.rowLabels|
    ensures forall i :: 0 <= i < |t.counts| ==> |t.counts[i]| == |t.colLabels|
    ensures forall i, j :: 0 <= i < |t.rowLabels| && 0 <= j < |t.colLabels| ==>
      t.counts[i][j] == Occ(Joint(xs, ys), (t.rowLabels[i], t.colLabels[j]))
  {
    var jt := Joint(xs, ys);
    var rl := Dedup(Present(Firsts(jt)));
    var cl := Dedup(Present(Seconds(jt)));
    Crosstab(rl, cl, seq(|rl|, i requires 0 <= i < |rl| => PairOccs(jt, rl[i], cl)))
  }

  /** For each label `b`, the number of rows holding the pair `(a, b)`. */
  function PairOccs<R(==), C(==)>(jt: seq<Option<(R, C)>>, a: R, labels: seq<C>): (r: seq<nat>)
    ensures |r| == |labels|
    ensures forall j :: 0 <= j < |labels| ==> r[j] == Occ(jt, (a, labels[j]))
  {
    seq(|labels|, j requires 0 <= j < |labels| => Occ(jt, (a, labels[j])))
  }

  /** For each label, the number of rows holding it. */
  function LabelOccs<T(==)>(s: seq<Option<T>>, labels: seq<T>): (r: seq<nat>)
    ensures |r| == |labels|
    ensures forall j :: 0 <= j < |labels| ==> r[j] == Occ(s, labels[j])
  {
    seq(|labels|, j requires 0 <= j < |labels| => Occ(s, labels[j]))
  }

  function SumNat(s: seq<nat>): nat {
    if |s| == 0 then 0 else SumNat(s[..|s| - 1]) + s[|s| - 1]
  }

  /** The number of observations in a table: the sum of all its cells. */
  function TableTotal<R, C>(t: Crosstab<R, C>): nat {
    SumNat(RowSums(t))
  }

  function RowSums<R, C>(t: Crosstab<R, C>): (r: seq<nat>)
    ensures |r| == |t.counts|
    ensures forall i :: 0 <= i < |t.counts| ==> r[i] == SumNat(t.counts[i])
  {
    seq(|t.counts|, i requires 0 <= i < |t.counts| => SumNat(t.counts[i]))
  }

  /** Adding one to a single entry adds one to the sum. */
  lemma {:induction false} SumNatBump(u: seq<nat>, w: seq<nat>, j0: nat)
    requires |u| == |w| && j0 < |u|
    requires forall j :: 0 <= j < |u| ==> w[j] == u[j] + (if j == j0 then 1 else 0)
    ensures SumNat(w) == SumNat(u) + 1
  {
    var n := |u|;
    if j0 == n - 1 {
      assert u[..n - 1] == w[..n - 1];
    } else {
      SumNatBump(u[..n - 1], w[..n - 1], j0);
    }
  }

  /** Counting the occurrences of each of a set of distinct labels that
      covers every present value, and adding up, counts the present values. */
  lemma {:induction false} LabelCountsSum<T>(s: seq<Option<T>>, labels: seq<T>)
    requires Distinct(labels)
    requires forall k :: 0 <= k < |s| && s[k].Some? ==> s[k].value in labels
    ensures SumNat(LabelOccs(s, labels)) == |Present(s)|
  {
    var w := LabelOccs(s, labels);
    if |s| == 0 {
      assert w == seq(|labels|, j => 0);
      ZeroSum(|labels|);
    } else {
      var s' := s[..|s| - 1];
      var u := LabelOccs(s', labels);
      LabelCountsSum(s', labels);
      assert s == s' + [s[|s| - 1]];
      match s[|s| - 1]
      case None =>
        assert u == w;
      case Some(v) =>
        var j0 :| 0 <= j0 < |labels| && labels[j0] == v;
        SumNatBump(u, w, j0);
    }
  }

  lemma {:induction false} ZeroSum(n: nat)
    ensures SumNat(seq(n, j => 0)) == 0
  {
    if n > 0 {
      assert seq(n, j => 0)[..n - 1] == seq(n - 1, j => 0);
      ZeroSum(n - 1);
    }
  }

  /** The cells of one table row add up to the number of rows carrying that
      row label whose partner value is present. */
  lemma {:induction false} PairCountsSum<R, C>(jt: seq<Option<(R, C)>>, a: R, labels: seq<C>)
    requires Distinct(labels)
    requires forall k :: 0 <= k < |jt| && jt[k].Some? && jt[k].value.0 == a ==> jt[k].value.1 in labels
    ensures SumNat(PairOccs(jt, a, labels)) == Occ(Firsts(jt), a)
  {
    var w := PairOccs(jt, a, labels);
    if |jt| == 0 {
      assert w == seq(|labels|, j => 0);
      ZeroSum(|labels|);
    } else {
      var n := |jt|;
      var jt' := jt[..n - 1];
      var u := PairOccs(jt', a, labels);
      PairCountsSum(jt', a, labels);
      assert Firsts(jt)[..n - 1] == Firsts(jt');
      match jt[n - 1]
      case None =>
        assert u == w;
      case Some(p) =>
        if p.0 == a {
          var j0 :| 0 <= j0 < |labels| && labels[j0] == p.1;
          SumNatBump(u, w, j0);
        } else {
          assert u == w;
        }
    }
  }

  lemma {:induction false} PresentFirsts<R, C>(xs: seq<Option<R>>, ys: seq<Option<C>>)
    requires |xs| == |ys|
    ensures |Present(Firsts(Joint(xs, ys)))| == BothPresent(xs, ys)
  {
    var n := |xs|;
    if n > 0 {
      PresentFirsts(xs[..n - 1], ys[..n - 1]);
      var jt, jt' := Joint(xs, ys), Joint(xs[..n - 1], ys[..n - 1]);
      assert jt[..n - 1] == jt';
      var f := Firsts(jt);
      assert f[..n - 1] == Firsts(jt');
    }
  }

  lemma {:induction false} PresentSeconds<R, C>(xs: seq<Option<R>>, ys: seq<Option<C>>)
    requires |xs| == |ys|
    ensures |Present(Seconds(Joint(xs, ys)))| == BothPresent(xs, ys)
  {
    var n := |xs|;
    if n > 0 {
      PresentSeconds(xs[..n - 1], ys[..n - 1]);
      var jt, jt' := Joint(xs, ys), Joint(xs[..n - 1], ys[..n - 1]);
      assert jt[..n - 1] == jt';
      var f := Seconds(jt);
      assert f[..n - 1] == Seconds(jt');
    }
  }

  /** Row `i` of the table sums to the number of rows carrying its label
      (among those where both columns are present). */
  lemma CrossTabRowSum<R, C>(xs: seq<Option<R>>, ys: seq<Option<C>>, i: nat)
    requires |xs| == |ys| && i < |CrossTab(xs, ys).rowLabels|
    ensures SumNat(CrossTab(xs, ys).counts[i]) == Occ(Firsts(Joint(xs, ys)), CrossTab(xs, ys).rowLabels[i])
  {
    var t := CrossTab(xs, ys);
    var jt := Joint(xs, ys);
    var sc := Seconds(jt);
    forall k | 0 <= k < |jt| && jt[k].Some? && jt[k].value.0 == t.rowLabels[i]
      ensures jt[k].value.1 in t.colLabels
    {
      assert sc[k] == Some(jt[k].value.1);
    }
    PairCountsSum(jt, t.rowLabels[i], t.colLabels);
  }

  /** All cells together count exactly the rows where both columns are
      present. */
  lemma CrossTabTotal<R, C>(xs: seq<Option<R>>, ys: seq<Option<C>>)
    requires |xs| == |ys|
    ensures TableTotal(CrossTab(xs, ys)) == BothPresent(xs, ys)
  {
    var t := CrossTab(xs, ys);
    var fs := Firsts(Joint(xs, ys));
    forall i | 0 <= i < |t.counts| ensures SumNat(t.counts[i]) == Occ(fs, t.rowLabels[i]) {
      CrossTabRowSum(xs, ys, i);
    }
    RowSumsAre(t, fs);
    DedupCovers(fs);
    LabelCountsSum(fs, t.rowLabels);
    PresentFirsts(xs, ys);
  }

  lemma RowSumsAre<R, C>(t: Crosstab<R, C>, fs: seq<Option<R>>)
    requires |t.counts| == |t.rowLabels|
    requires forall i :: 0 <= i < |t.counts| ==> SumNat(t.counts[i]) == Occ(fs, t.rowLabels[i])
    ensures TableTotal(t) == SumNat(LabelOccs(fs, t.rowLabels))
  {
    assert RowSums(t) == LabelOccs(fs, t.rowLabels);
  }

  lemma DedupCovers<T>(s: seq<Option<T>>)
    ensures forall k :: 0 <= k < |s| && s[k].Some? ==> s[k].value in Dedup(Present(s))
  {
  }

  /** The table has no cells exactly when no row has both values present. */
  lemma CrossTabEmpty<R, C>(xs: seq<Option<R>>, ys: seq<Option<C>>)
    requires |xs| == |ys|
    ensures CrossTab(xs, ys).rowLabels == [] <==> BothPresent(xs, ys) == 0
    ensures CrossTab(xs, ys).colLabels == [] <==> BothPresent(xs, ys) == 0
  {
    PresentFirsts(xs, ys);
    PresentSeconds(xs, ys);
    var pf := Present(Firsts(Joint(xs, ys)));
    var ps := Present(Seconds(Joint(xs, ys)));
    if |pf| > 0 { assert pf[0] in Dedup(pf); }
    if |ps| > 0 { assert ps[0] in Dedup(ps); }
  }

  /** Every label of the table is a value observed in its column. */
  lemma CrossTabLabels<R, C>(xs: seq<Option<R>>, ys: seq<Option<C>>)
    requires |xs| == |ys|
    ensures forall i :: 0 <= i < |CrossTab(xs, ys).rowLabels| ==> Some(CrossTab(xs, ys).rowLabels[i]) in xs
    ensures forall j :: 0 <= j < |CrossTab(xs, ys).colLabels| ==> Some(CrossTab(xs, ys).colLabels[j]) in ys
  {
    var jt := Joint(xs, ys);
    forall i | 0 <= i < |CrossTab(xs, ys).rowLabels| ensures Some(CrossTab(xs, ys).rowLabels[i]) in xs {
      FirstObserved(xs, ys, Dedup(Present(Firsts(jt)))[i]);
    }
    forall j | 0 <= j < |CrossTab(xs, ys).colLabels| ensures Some(CrossTab(xs, ys).colLabels[j]) in ys {
      SecondObserved(xs, ys, Dedup(Present(Seconds(jt)))[j]);
    }
  }

  /** No row and no column of the table is all zero: every label is observed
      together with some label of the other side. */
  lemma {:induction false} CrossTabObserved<R, C>(xs: seq<Option<R>>, ys: seq<Option<C>>)
    requires |xs| == |ys|
    ensures NoZeroRow(CrossTab(xs, ys)) && NoZeroColumn(CrossTab(xs, ys))
  {
    var t := CrossTab(xs, ys);
    forall i | 0 <= i < |t.rowLabels|
      ensures RowHasCount(t, i)
    {
      var j := RowWitness(xs, ys, i);
      assert Cell(t, i, j) >= 1;
    }
    forall j | 0 <= j < |t.colLabels|
      ensures ColumnHasCount(t, j)
    {
      var i := ColumnWitness(xs, ys, j);
      assert Cell(t, i, j) >= 1;
    }
  }

  /** The count in row `i` and column `j`, or 0 off the table. */
  function Cell<R, C>(t: Crosstab<R, C>, i: int, j: int): nat {
    if 0 <= i < |t.counts| && 0 <= j < |t.counts[i]| then t.counts[i][j] else 0
  }

  /** Row `i` has a non-zero cell. */
  ghost predicate RowHasCount<R, C>(t: Crosstab<R, C>, i: int) {
    exists j :: 0 <= j < |t.colLabels| && Cell(t, i, j) >= 1
  }

  /** Column `j` has a non-zero cell. */
  ghost predicate ColumnHasCount<R, C>(t: Crosstab<R, C>, j: int) {
    exists i :: 0 <= i < |t.rowLabels| && Cell(t, i, j) >= 1
  }

  /** Every row label is observed with some column label. */
  ghost predicate NoZeroRow<R, C>(t: Crosstab<R, C>) {
    forall i :: 0 <= i < |t.rowLabels| ==> RowHasCount(t, i)
  }

  /** Every column label is observed with some row label. */
  ghost predicate NoZeroColumn<R, C>(t: Crosstab<R, C>) {
    forall j :: 0 <= j < |t.colLabels| ==> ColumnHasCount(t, j)
  }

  /** A column in which row `i` of the table is non-zero. */
  lemma RowWitness<R, C>(xs: seq<Option<R>>, ys: seq<Option<C>>, i: nat) returns (j: nat)
    requires |xs| == |ys| && i < |CrossTab(xs, ys).rowLabels|
    ensures j < |CrossTab(xs, ys).colLabels| && CrossTab(xs, ys).counts[i][j] >= 1
  {
    var k := RowObserved(xs, ys, i);
    j := ColumnOf(xs, ys, k);
    CellObserved(xs, ys, k, i, j);
  }

  /** A row in which column `j` of the table is non-zero. */
  lemma ColumnWitness<R, C>(xs: seq<Option<R>>, ys: seq<Option<C>>, j: nat) returns (i: nat)
    requires |xs| == |ys| && j < |CrossTab(xs, ys).colLabels|
    ensures i < |CrossTab(xs, ys).rowLabels| && CrossTab(xs, ys).counts[i][j] >= 1
  {
    var k := ColumnObserved(xs, ys, j);
    i := RowOf(xs, ys, k);
    CellObserved(xs, ys, k, i, j);
  }

  /** An input row that carries row label `i`. */
  lemma RowObserved<R, C>(xs: seq<Option<R>>, ys: seq<Option<C>>, i: nat) returns (k: nat)
    requires |xs| == |ys| && i < |CrossTab(xs, ys).rowLabels|
    ensures k < |xs| && Joint(xs, ys)[k].Some? && Joint(xs, ys)[k].value.0 == CrossTab(xs, ys).rowLabels[i]
  {
    var fs := Firsts(Joint(xs, ys));
    var a := CrossTab(xs, ys).rowLabels[i];
    assert a in Present(fs);
    k :| 0 <= k < |fs| && fs[k] == Some(a);
  }

  /** An input row that carries column label `j`. */
  lemma ColumnObserved<R, C>(xs: seq<Option<R>>, ys: seq<Option<C>>, j: nat) returns (k: nat)
    requires |xs| == |ys| && j < |CrossTab(xs, ys).colLabels|
    ensures k < |xs| && Joint(xs, ys)[k].Some? && Joint(xs, ys)[k].value.1 == CrossTab(xs, ys).colLabels[j]
  {
    var ss := Seconds(Joint(xs, ys));
    var b := CrossTab(xs, ys).colLabels[j];
    assert b in Present(ss);
    k :| 0 <= k < |ss| && ss[k] == Some(b);
  }

  /** The row label of an input row that takes part in the table. */
  lemma RowOf<R, C>(xs: seq<Option<R>>, ys: seq<Option<C>>, k: nat) returns (i: nat)
    requires |xs| == |ys| && k < |xs| && Joint(xs, ys)[k].Some?
    ensures i < |CrossTab(xs, ys).rowLabels| && CrossTab(xs, ys).rowLabels[i] == Joint(xs, ys)[k].value.0
  {
    var fs := Firsts(Joint(xs, ys));
    assert fs[k] == Some(Joint(xs, ys)[k].value.0);
    var rl := Dedup(Present(fs));
    assert Joint(xs, ys)[k].value.0 in rl;
    i :| 0 <= i < |rl| && rl[i] == Joint(xs, ys)[k].value.0;
  }

  /** The column label of an input row that takes part in the table. */
  lemma ColumnOf<R, C>(xs: seq<Option<R>>, ys: seq<Option<C>>, k: nat) returns (j: nat)
    requires |xs| == |ys| && k < |xs| && Joint(xs, ys)[k].Some?
    ensures j < |CrossTab(xs, ys).colLabels| && CrossTab(xs, ys).colLabels[j] == Joint(xs, ys)[k].value.1
  {
    var ss := Seconds(Joint(xs, ys));
    assert ss[k] == Some(Joint(xs, ys)[k].value.1);
    var cl := Dedup(Present(ss));
    assert Joint(xs, ys)[k].value.1 in cl;
    j :| 0 <= j < |cl| && cl[j] == Joint(xs, ys)[k].value.1;
  }

  /** The cell of an input row's pair of labels counts that row. */
  lemma CellObserved<R, C>(xs: seq<Option<R>>, ys: seq<Option<C>>, k: nat, i: nat, j: nat)
    requires |xs| == |ys| && k < |xs| && Joint(xs, ys)[k].Some?
    requires i < |CrossTab(xs, ys).rowLabels| && CrossTab(xs, ys).rowLabels[i] == Joint(xs, ys)[k].value.0
    requires j < |CrossTab(xs, ys).colLabels| && CrossTab(xs, ys).colLabels[j] == Joint(xs, ys)[k].value.1
    ensures CrossTab(xs, ys).counts[i][j] >= 1
  {
    var jt := Joint(xs, ys);
    OccIsMultiplicity(jt, jt[k].value);
    assert Some(jt[k].value) in jt;
  }

  /** A value of the first column that takes part in the table occurs in that
      column. */
  lemma FirstObserved<R, C>(xs: seq<Option<R>>, ys: seq<Option<C>>, v: R)
    requires |xs| == |ys| && v in Present(Firsts(Joint(xs, ys)))
    ensures Some(v) in xs
  {
    var fs := Firsts(Joint(xs, ys));
    var m :| 0 <= m < |Present(fs)| && Present(fs)[m] == v;
    var k :| 0 <= k < |fs| && fs[k] == Some(v);
    assert xs[k] == Some(v);
  }

  /** A value of the second column that takes part in the table occurs in
      that column. */
  lemma SecondObserved<R, C>(xs: seq<Option<R>>, ys: seq<Option<C>>, v: C)
    requires |xs| == |ys| && v in Present(Seconds(Joint(xs, ys)))
    ensures Some(v) in ys
  {
    var ss := Seconds(Joint(xs, ys));
    var m :| 0 <= m < |Present(ss)| && Present(ss)[m] == v;
    var k :| 0 <= k < |ss| && ss[k] == Some(v);
    assert ys[k] == Some(v);
  }

  /** Against a column that is never missing, a row takes part in the table
      exactly when the other column is present. */
  lemma {:induction false} AllPresentBoth<R, T>(xs: seq<Option<R>>, ind: seq<T>)
    requires |xs| == |ind|
    ensures BothPresent(xs, AllPresent(ind)) == |Present(xs)|
  {
    var n := |xs|;
    if n > 0 {
      AllPresentBoth(xs[..n - 1], ind[..n - 1]);
      assert AllPresent(ind)[..n - 1] == AllPresent(ind[..n - 1]);
      assert xs == xs[..n - 1] + [xs[n - 1]];
    }
  }

  lemma {:induction false} PresentAll<T>(s: seq<T>)
    ensures Present(AllPresent(s)) == s
  {
    var n := |s|;
    if n > 0 {
      PresentAll(s[..n - 1]);
      assert AllPresent(s)[..n - 1] == AllPresent(s[..n - 1]);
      assert s == s[..n - 1] + [s[n - 1]];
    }
  }

  /** `chi2_contingency(table)`: scipy raises a ValueError on a table without
      observations and otherwise returns the statistic and p-value, which this
      model does not compute. (A crosstab never has an all-zero row or column,
      `CrossTabObserved`, so scipy's zero-expected-frequency error cannot
      arise.) */
  function ChiSquare<R, C>(test: seq<seq<nat>> -> ChiResult, t: Crosstab<R, C>): (r: Result<ChiResult, Error>)
    ensures r.Err? <==> t.rowLabels == [] || t.colLabels == []
    ensures r.Err? ==> r.error == EmptyTable
    ensures r.Ok? ==> r.value == test(t.counts)
  {
    if t.rowLabels == [] || t.colLabels == [] then Err(EmptyTable) else Ok(test(t.counts))
  }
}
