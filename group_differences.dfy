/** `analyze_group_differences` (src/EDA/missing_values.py): for each feature,
    how often it is missing in each group of a grouping column, a chi-square
    test of group against missingness, and a score that ranks the features;
    the result rows are returned ordered by p-value and by score. */
module GroupDifferences {
  import opened Wrappers
  import opened Collections
  import opened Numbers
  import opened Table
  import opened Contingency
  import opened Sorting
  import opened Loops

  /** The guard added to the p-value before dividing by it (1e-10). */
  const Epsilon: real := 0.0000000001

  datatype FeatureResult = FeatureResult(
    feature: string,
    percentages: map<Value, real>,
    pValue: Prob,
    chi2Statistic: real,
    maxGroupDifference: real,
    significanceScore: real)

  /** The groups: the distinct values present in the group column (groupby drops
      rows whose group is missing). */
  function Groups(groups: seq<Cell>): (r: seq<Value>)
    ensures Distinct(r)
  {
    Dedup(Present(groups))
  }

  lemma GroupsMembership(groups: seq<Cell>, g: Value)
    ensures g in Groups(groups) <==> Some(g) in groups
  {
    if Some(g) in groups {
      var k :| 0 <= k < |groups| && groups[k] == Some(g);
      assert groups[k].value in Present(groups);
    }
    if g in Groups(groups) {
      var i :| 0 <= i < |Present(groups)| && Present(groups)[i] == g;
    }
  }

  /** The 0/1 missingness indicator of the rows of group `g`: the values the
      groupby mean averages. */
  function GroupIndicators(groups: seq<Cell>, ind: seq<bool>, g: Value): seq<real>
    requires |groups| == |ind|
  {
    if |groups| == 0 then []
    else
      var n := |groups|;
      var prefix := GroupIndicators(groups[..n - 1], ind[..n - 1], g);
      if groups[n - 1] == Some(g) then prefix + [if ind[n - 1] then 1.0 else 0.0] else prefix
  }

  /** Number of rows in group `g` whose feature is missing (`missing`) or
      present (`!missing`). */
  function GroupCount(groups: seq<Cell>, cells: seq<Cell>, g: Value, missing: bool): nat
    requires |groups| == |cells|
  {
    if |groups| == 0 then 0
    else
      var n := |groups|;
      GroupCount(groups[..n - 1], cells[..n - 1], g, missing)
        + (if groups[n - 1] == Some(g) && cells[n - 1].None? == missing then 1 else 0)
  }

  lemma {:induction false} GroupIndicatorsCount(groups: seq<Cell>, cells: seq<Cell>, g: Value)
    requires |groups| == |cells|
    ensures |GroupIndicators(groups, Indicator(cells), g)| == Occ(groups, g)
    ensures Sum(GroupIndicators(groups, Indicator(cells), g)) == GroupCount(groups, cells, g, true) as real
    ensures GroupCount(groups, cells, g, true) + GroupCount(groups, cells, g, false) == Occ(groups, g)
  {
    var n := |groups|;
    if n > 0 {
      GroupIndicatorsCount(groups[..n - 1], cells[..n - 1], g);
      assert Indicator(cells)[..n - 1] == Indicator(cells[..n - 1]);
      var prefix := GroupIndicators(groups[..n - 1], Indicator(cells[..n - 1]), g);
      if groups[n - 1] == Some(g) {
        SumAppend(prefix, [if cells[n - 1].None? then 1.0 else 0.0]);
        assert Sum([if cells[n - 1].None? then 1.0 else 0.0]) == if cells[n - 1].None? then 1.0 else 0.0 by {
          assert [if cells[n - 1].None? then 1.0 else 0.0][..0] == [];
        }
      }
    }
  }

  /** `percentages_by_group[g]`: the mean of the indicator over group `g`, times 100. */
  function GroupPercentage(groups: seq<Cell>, cells: seq<Cell>, g: Value): real
    requires |groups| == |cells| && g in Groups(groups)
  {
    GroupsMembership(groups, g);
    OccIsMultiplicity(groups, g);
    GroupIndicatorsCount(groups, cells, g);
    Average(GroupIndicators(groups, Indicator(cells), g)) * 100.0
  }

  /** A group's percentage is the share of its rows with the feature missing,
      so it lies in [0, 100]; every reported group has at least one row. */
  lemma GroupPercentageShare(groups: seq<Cell>, cells: seq<Cell>, g: Value)
    requires |groups| == |cells| && g in Groups(groups)
    ensures Occ(groups, g) >= 1
    ensures GroupPercentage(groups, cells, g)
         == GroupCount(groups, cells, g, true) as real * 100.0 / Occ(groups, g) as real
    ensures 0.0 <= GroupPercentage(groups, cells, g) <= 100.0
  {
    GroupsMembership(groups, g);
    OccIsMultiplicity(groups, g);
    GroupIndicatorsCount(groups, cells, g);
    var s := GroupIndicators(groups, Indicator(cells), g);
    ShareBounds(Sum(s), |s| as real);
  }

  lemma ShareBounds(m: real, size: real)
    requires 0.0 <= m <= size && size > 0.0
    ensures m / size * 100.0 == m * 100.0 / size
    ensures 0.0 <= m / size * 100.0 <= 100.0
  {
    var q := m / size;
    assert q * size == m;
    assert (q * 100.0) * size == m * 100.0;
    assert q * 100.0 == (q * 100.0) * size / size;
    assert q <= 1.0;
  }

  /** The row labels of the group-by-missingness crosstab are exactly the groups. */
  lemma {:induction false} IndicatorJointFirsts<T>(groups: seq<Cell>, ind: seq<T>)
    requires |groups| == |ind|
    ensures Firsts(Joint(groups, AllPresent(ind))) == groups
  {
  }

  /** Cell (g, b) of `pd.crosstab(df[group], df[feature].isnull())` counts the
      rows of group `g` whose missingness is `b`; a group's cells add up to the
      size of the group. */
  lemma {:induction false} GroupContingencyCell(groups: seq<Cell>, cells: seq<Cell>, g: Value, b: bool)
    requires |groups| == |cells|
    ensures Occ(Joint(groups, AllPresent(Indicator(cells))), (g, b)) == GroupCount(groups, cells, g, b)
  {
    var n := |groups|;
    if n > 0 {
      GroupContingencyCell(groups[..n - 1], cells[..n - 1], g, b);
      assert Joint(groups, AllPresent(Indicator(cells)))[..n - 1]
          == Joint(groups[..n - 1], AllPresent(Indicator(cells[..n - 1])));
    }
  }

  lemma GroupContingency(groups: seq<Cell>, cells: seq<Cell>, i: nat)
    requires |groups| == |cells|
    requires i < |CrossTab(groups, AllPresent(Indicator(cells))).rowLabels|
    ensures var t := CrossTab(groups, AllPresent(Indicator(cells)));
      && t.rowLabels == Groups(groups)
      && (forall j :: 0 <= j < |t.colLabels| ==>
            t.counts[i][j] == GroupCount(groups, cells, t.rowLabels[i], t.colLabels[j]))
      && SumNat(t.counts[i]) == Occ(groups, t.rowLabels[i])
  {
    var t := CrossTab(groups, AllPresent(Indicator(cells)));
    IndicatorJointFirsts(groups, Indicator(cells));
    forall j | 0 <= j < |t.colLabels|
      ensures t.counts[i][j] == GroupCount(groups, cells, t.rowLabels[i], t.colLabels[j])
    {
      GroupContingencyCell(groups, cells, t.rowLabels[i], t.colLabels[j]);
    }
    CrossTabRowSum(groups, AllPresent(Indicator(cells)), i);
  }

  /** `max_diff / (p_value + 1e-10)`. */
  function SignificanceScore(maxDiff: real, p: Prob): real
  {
    maxDiff / (p + Epsilon)
  }

  /** The guard keeps the divisor positive: the score has the sign of the
      difference and is zero exactly when the difference is. */
  lemma ScoreSign(maxDiff: real, p: Prob)
    ensures maxDiff >= 0.0 ==> SignificanceScore(maxDiff, p) >= 0.0
    ensures SignificanceScore(maxDiff, p) == 0.0 <==> maxDiff == 0.0
  {
  }

  /** For a fixed difference, a larger p-value never gives a larger score. */
  lemma ScoreAntitone(maxDiff: real, p1: Prob, p2: Prob)
    requires maxDiff >= 0.0 && p1 <= p2
    ensures SignificanceScore(maxDiff, p2) <= SignificanceScore(maxDiff, p1)
  {
    DivideAntitone(maxDiff, p1 + Epsilon, p2 + Epsilon);
  }

  lemma DivideAntitone(d: real, a: real, b: real)
    requires d >= 0.0 && 0.0 < a <= b
    ensures d / b <= d / a
  {
    var x, y := d / a, d / b;
    assert x * a == d;
    assert y * b == d;
    assert y >= 0.0;
    assert y * a <= y * b;
    assert y * a <= x * a;
  }

  /** The per-group percentages in group order. */
  function Percentages(groups: seq<Cell>, cells: seq<Cell>): (r: seq<real>)
    requires |groups| == |cells|
    ensures |r| == |Groups(groups)|
    ensures forall i :: 0 <= i < |r| ==> r[i] == GroupPercentage(groups, cells, Groups(groups)[i])
  {
    var gs := Groups(groups);
    seq(|gs|, i requires 0 <= i < |gs| => GroupPercentage(groups, cells, gs[i]))
  }

  /** The table `pd.crosstab(df[group], df[feature].isnull())`. */
  function GroupTable(groups: seq<Cell>, cells: seq<Cell>): Crosstab<Value, bool>
    requires |groups| == |cells|
  {
    CrossTab(groups, AllPresent(Indicator(cells)))
  }

  /** The table is empty, and the chi-square test raises, exactly when no row
      has a group value. */
  lemma GroupTableEmpty(groups: seq<Cell>, cells: seq<Cell>)
    requires |groups| == |cells|
    ensures GroupTable(groups, cells).rowLabels == [] <==> |Present(groups)| == 0
    ensures GroupTable(groups, cells).colLabels == [] <==> |Present(groups)| == 0
    ensures GroupTable(groups, cells).rowLabels == Groups(groups)
  {
    CrossTabEmpty(groups, AllPresent(Indicator(cells)));
    AllPresentBoth(groups, Indicator(cells));
    IndicatorJointFirsts(groups, Indicator(cells));
  }

  /** The result row of one feature, given the group column, the feature
      column and the chi-square outcome (lines 26, 33 and 35-41). */
  function FeatureRow(feature: string, groups: seq<Cell>, cells: seq<Cell>, chi: ChiResult): FeatureResult
    requires |groups| == |cells| && |Present(groups)| > 0
  {
    var maxDiff := MaxGroupDifference(groups, cells);
    FeatureResult(feature, PercentageMap(groups, cells), chi.pValue,
                  chi.statistic, maxDiff, SignificanceScore(maxDiff, chi.pValue))
  }

  /** `max(percentages) - min(percentages)` over the groups. */
  function MaxGroupDifference(groups: seq<Cell>, cells: seq<Cell>): real
    requires |groups| == |cells| && |Present(groups)| > 0
  {
    assert Present(groups)[0] in Groups(groups);
    var values := Percentages(groups, cells);
    Max(values) - Min(values)
  }

  /** `percentages_by_group.to_dict()`: group value to missing percentage. */
  function PercentageMap(groups: seq<Cell>, cells: seq<Cell>): (m: map<Value, real>)
    requires |groups| == |cells|
    ensures forall g :: g in m <==> g in Groups(groups)
    ensures forall g :: g in m ==> m[g] == GroupPercentage(groups, cells, g)
  {
    map g | g in Groups(groups) :: GroupPercentage(groups, cells, g)
  }

  /** One iteration of the feature loop (lines 26-40): the result row for
      `feature`, or the exception the iteration raises. `df[feature]` is
      evaluated before `df[group_variable]`. */
  function AnalyzeFeature(df: Frame, groupVariable: string, feature: string,
                          test: seq<seq<nat>> -> ChiResult): Result<FeatureResult, Error>
    requires Valid(df)
  {
    var fc :- Find(df, feature);
    var gc :- Find(df, groupVariable);
    assert ValidColumn(fc, df.rows) && ValidColumn(gc, df.rows);
    var table := GroupTable(gc.cells, fc.cells);
    var chi :- ChiSquare(test, table);
    GroupTableEmpty(gc.cells, fc.cells);
    Ok(FeatureRow(feature, gc.cells, fc.cells, chi))
  }

  /** A missing feature column raises before a missing group column; with both
      present the iteration fails exactly when no row has a group value (the
      chi-square test then gets an empty table), and otherwise yields the row
      built from the test's verdict on the group-by-missingness table. */
  lemma AnalyzeFeatureOutcome(df: Frame, groupVariable: string, feature: string,
                              test: seq<seq<nat>> -> ChiResult)
    requires Valid(df)
    ensures var r := AnalyzeFeature(df, groupVariable, feature, test);
      && (r.Ok? ==> r.value.feature == feature)
      && (feature !in Names(df) ==> r == Err(KeyError(feature)))
      && (feature in Names(df) && groupVariable !in Names(df) ==> r == Err(KeyError(groupVariable)))
      && (feature in Names(df) && groupVariable in Names(df) ==>
            var gc, fc := Find(df, groupVariable).value, Find(df, feature).value;
            && |gc.cells| == |fc.cells|
            && (r.Err? <==> |Present(gc.cells)| == 0)
            && (r.Err? ==> r.error == EmptyTable)
            && (r.Ok? ==> r.value == FeatureRow(feature, gc.cells, fc.cells, test(GroupTable(gc.cells, fc.cells).counts))))
  {
    if feature in Names(df) && groupVariable in Names(df) {
      var fc, gc := Find(df, feature).value, Find(df, groupVariable).value;
      assert ValidColumn(fc, df.rows) && ValidColumn(gc, df.rows);
      GroupTableEmpty(gc.cells, fc.cells);
    }
  }

  /** The percentage map has one entry per group value present in the group
      column. */
  lemma PercentageMapKeys(groups: seq<Cell>, cells: seq<Cell>)
    requires |groups| == |cells|
    ensures forall g :: g in PercentageMap(groups, cells) <==> Some(g) in groups
  {
    var pct := PercentageMap(groups, cells);
    forall g ensures g in pct <==> Some(g) in groups {
      GroupsMembership(groups, g);
    }
  }

  /** Each percentage is the missing share of its group, within [0, 100];
      every reported group has at least one row. */
  lemma PercentageMapValue(groups: seq<Cell>, cells: seq<Cell>, g: Value)
    requires |groups| == |cells| && g in PercentageMap(groups, cells)
    ensures Occ(groups, g) >= 1
    ensures PercentageMap(groups, cells)[g] == GroupCount(groups, cells, g, true) as real * 100.0 / Occ(groups, g) as real
    ensures 0.0 <= PercentageMap(groups, cells)[g] <= 100.0
  {
    GroupPercentageShare(groups, cells, g);
  }

  lemma PercentagesBounded(groups: seq<Cell>, cells: seq<Cell>)
    requires |groups| == |cells|
    ensures forall i :: 0 <= i < |Percentages(groups, cells)| ==> 0.0 <= Percentages(groups, cells)[i] <= 100.0
  {
    forall i | 0 <= i < |Percentages(groups, cells)|
      ensures 0.0 <= Percentages(groups, cells)[i] <= 100.0
    {
      GroupPercentageShare(groups, cells, Groups(groups)[i]);
    }
  }

  /** `max_group_difference` is the largest difference between two groups'
      percentages, so it lies in [0, 100]; the score is that difference over
      the guarded p-value and is never negative. */
  lemma FeatureRowSpread(feature: string, groups: seq<Cell>, cells: seq<Cell>, chi: ChiResult)
    requires |groups| == |cells| && |Present(groups)| > 0
    ensures var r := FeatureRow(feature, groups, cells, chi);
      && (forall g, h :: g in r.percentages && h in r.percentages ==>
            r.percentages[g] - r.percentages[h] <= r.maxGroupDifference)
      && (exists g, h :: g in r.percentages && h in r.percentages &&
            r.percentages[g] - r.percentages[h] == r.maxGroupDifference)
      && 0.0 <= r.maxGroupDifference <= 100.0
  {
    var r := FeatureRow(feature, groups, cells, chi);
    var gs := Groups(groups);
    var pct := PercentageMap(groups, cells);
    var values := Percentages(groups, cells);
    assert Present(groups)[0] in gs;
    assert r.percentages == pct;
    assert r.maxGroupDifference == MaxGroupDifference(groups, cells) == Max(values) - Min(values);
    PercentagesBounded(groups, cells);
    Spread(values, 0.0, 100.0);
    SpreadOverMap(gs, pct, values, r.maxGroupDifference);
  }

  /** The row's score is its largest difference over its guarded p-value, and
      never negative; it carries the test's p-value and statistic. */
  lemma FeatureRowScore(feature: string, groups: seq<Cell>, cells: seq<Cell>, chi: ChiResult)
    requires |groups| == |cells| && |Present(groups)| > 0
    ensures var r := FeatureRow(feature, groups, cells, chi);
      && r.pValue == chi.pValue && r.chi2Statistic == chi.statistic
      && r.significanceScore == SignificanceScore(r.maxGroupDifference, r.pValue)
      && r.significanceScore >= 0.0
  {
    var r := FeatureRow(feature, groups, cells, chi);
    FeatureRowSpread(feature, groups, cells, chi);
    ScoreSign(r.maxGroupDifference, r.pValue);
  }

  /** Transfers the spread of the percentages in group order to the map. */
  lemma SpreadOverMap(gs: seq<Value>, pct: map<Value, real>, values: seq<real>, d: real)
    requires |gs| == |values|
    requires forall g :: g in pct <==> g in gs
    requires forall i :: 0 <= i < |gs| ==> pct[gs[i]] == values[i]
    requires forall i, j :: 0 <= i < |values| && 0 <= j < |values| ==> values[i] - values[j] <= d
    requires exists i, j :: 0 <= i < |values| && 0 <= j < |values| && values[i] - values[j] == d
    ensures forall g, h :: g in pct && h in pct ==> pct[g] - pct[h] <= d
    ensures exists g, h :: g in pct && h in pct && pct[g] - pct[h] == d
  {
    forall g, h | g in pct && h in pct
      ensures pct[g] - pct[h] <= d
    {
      var i :| 0 <= i < |gs| && gs[i] == g;
      var j :| 0 <= j < |gs| && gs[j] == h;
      assert values[i] - values[j] <= d;
    }
    var i, j :| 0 <= i < |values| && 0 <= j < |values| && values[i] - values[j] == d;
    assert gs[i] in pct && gs[j] in pct;
  }

  /** `.round(3)` on the results frame: every number in a row, the group
      percentages included, rounded half-to-even to three decimals. */
  function RoundResult(r: FeatureResult): FeatureResult
  {
    FeatureResult(r.feature,
                  map g | g in r.percentages :: Round3(r.percentages[g]),
                  RoundProb(r.pValue),
                  Round3(r.chi2Statistic),
                  Round3(r.maxGroupDifference),
                  Round3(r.significanceScore))
  }

  /** A rounded p-value is still a probability. */
  function RoundProb(p: Prob): Prob
  {
    RoundWithinIntBounds(p, 1000, 0, 1);
    Round3(p)
  }

  /** One iteration of the feature loop, as a step on the feature name. */
  function FeatureStep(df: Frame, groupVariable: string, test: seq<seq<nat>> -> ChiResult)
    : (step: string --> Result<FeatureResult, Error>)
    requires Valid(df)
    ensures forall f :: step.requires(f)
  {
    f requires Valid(df) => AnalyzeFeature(df, groupVariable, f, test)
  }

  /** The outcome of every iteration of the feature loop, in order. */
  function Outcomes(df: Frame, groupVariable: string, features: seq<string>,
                    test: seq<seq<nat>> -> ChiResult): (r: seq<Result<FeatureResult, Error>>)
    requires Valid(df)
    ensures |r| == |features|
    ensures forall i :: 0 <= i < |features| ==> r[i] == AnalyzeFeature(df, groupVariable, features[i], test)
  {
    Steps(features, FeatureStep(df, groupVariable, test))
  }

  /** The results frame before sorting: one rounded row per distinct feature,
      in order of first appearance (a repeated feature overwrites its own
      entry of the results dict with the same value). */
  function ResultTable(df: Frame, groupVariable: string, features: seq<string>,
                       test: seq<seq<nat>> -> ChiResult): (t: seq<FeatureResult>)
    requires Valid(df)
    requires FirstError(Outcomes(df, groupVariable, features, test)).None?
    ensures |t| == |Dedup(features)|
  {
    var names := Dedup(features);
    assert forall f :: f in features ==> AnalyzeFeature(df, groupVariable, f, test).Ok? by {
      forall f | f in features ensures AnalyzeFeature(df, groupVariable, f, test).Ok? {
        var i :| 0 <= i < |features| && features[i] == f;
        assert Outcomes(df, groupVariable, features, test)[i].Ok?;
      }
    }
    seq(|names|, k requires 0 <= k < |names| => RoundResult(AnalyzeFeature(df, groupVariable, names[k], test).value))
  }

  /** The two outputs of the analysis: the results frame sorted by ascending
      p-value and by descending significance score. */
  datatype Report = Report(byPValue: seq<FeatureResult>, bySignificance: seq<FeatureResult>)

  function PValueKey(r: FeatureResult): real { r.pValue as real }

  function DescendingScoreKey(r: FeatureResult): real { -r.significanceScore }

  /** What `analyze_group_differences` returns, without its file output:
      the first exception raised by the feature loop; otherwise, with no
      features, the `KeyError` of sorting a frame that has no `p_value`
      column; otherwise the results table sorted both ways. */
  function Analysis(df: Frame, groupVariable: string, features: seq<string>,
                    test: seq<seq<nat>> -> ChiResult): Result<Report, Error>
    requires Valid(df)
  {
    var outs := Outcomes(df, groupVariable, features, test);
    if FirstError(outs).Some? then Err(FirstError(outs).value)
    else if |features| == 0 then Err(KeyError("p_value"))
    else
      var t := ResultTable(df, groupVariable, features, test);
      Ok(Report(SortBy(t, PValueKey), SortBy(t, DescendingScoreKey)))
  }

  /** The analysis fails exactly when a feature's iteration raises or there
      are no features; otherwise both outputs hold the rows of the results
      table, one sorted by ascending p-value and one by descending score. */
  lemma AnalysisFacts(df: Frame, groupVariable: string, features: seq<string>,
                      test: seq<seq<nat>> -> ChiResult)
    requires Valid(df)
    ensures var r := Analysis(df, groupVariable, features, test);
      var outs := Outcomes(df, groupVariable, features, test);
      && (FirstError(outs).Some? ==> r == Err(FirstError(outs).value))
      && (FirstError(outs).None? && |features| == 0 ==> r == Err(KeyError("p_value")))
      && (r.Ok? <==> |features| > 0 && FirstError(outs).None?)
      && (r.Ok? ==>
        && SortedBy(r.value.byPValue, PValueKey)
        && SortedBy(r.value.bySignificance, DescendingScoreKey)
        && multiset(r.value.byPValue) == multiset(ResultTable(df, groupVariable, features, test))
        && multiset(r.value.bySignificance) == multiset(ResultTable(df, groupVariable, features, test))
        && |r.value.byPValue| == |Dedup(features)|)
  {
  }

  /** The feature loop fills the results dict, then the frame built from it
      is sorted twice. */
  method AnalyzeGroupDifferences(df: Frame, groupVariable: string, features: seq<string>,
                                 test: seq<seq<nat>> -> ChiResult)
    returns (r: Result<Report, Error>)
    requires Valid(df)
    ensures r == Analysis(df, groupVariable, features, test)
  {
    var collected :- CollectResults(features, FeatureStep(df, groupVariable, test));
    var (results, order) := collected;
    TableOfResults(df, groupVariable, features, test, results, order);
    if |order| == 0 {
      return Err(KeyError("p_value"));
    }
    var table := TableOf(results, order);
    r := Ok(Report(SortBy(table, PValueKey), SortBy(table, DescendingScoreKey)));
  }

  /** `pd.DataFrame.from_dict(results, orient='index')` after rounding: one
      rounded row per key, in insertion order. */
  function TableOf(results: map<string, FeatureResult>, order: seq<string>): (t: seq<FeatureResult>)
    requires forall f :: f in order ==> f in results
    ensures |t| == |order|
    ensures forall k :: 0 <= k < |order| ==> t[k] == RoundResult(results[order[k]])
  {
    seq(|order|, k requires 0 <= k < |order| => RoundResult(results[order[k]]))
  }

  /** The frame built from the filled results dict is the results table, and
      it is empty exactly when there are no features. */
  lemma TableOfResults(df: Frame, groupVariable: string, features: seq<string>,
                       test: seq<seq<nat>> -> ChiResult, results: map<string, FeatureResult>,
                       order: seq<string>)
    requires Valid(df)
    requires Dict(features, FeatureStep(df, groupVariable, test), results, order)
    ensures forall f :: f in order ==> f in results
    ensures TableOf(results, order) == ResultTable(df, groupVariable, features, test)
    ensures |order| == 0 <==> |features| == 0
  {
  }

  /** Rounding to three decimals keeps the group keys, keeps every
      percentage within [0, 100], the largest difference within [0, 100] and
      the score non-negative, and moves the p-value by at most 0.0005. */
  lemma RoundResultBounds(fr: FeatureResult)
    requires 0.0 <= fr.maxGroupDifference <= 100.0 && fr.significanceScore >= 0.0
    requires forall g :: g in fr.percentages ==> 0.0 <= fr.percentages[g] <= 100.0
    ensures var rr := RoundResult(fr);
      && rr.feature == fr.feature
      && (forall g :: g in rr.percentages <==> g in fr.percentages)
      && (forall g :: g in rr.percentages ==> 0.0 <= rr.percentages[g] <= 100.0)
      && 0.0 <= rr.maxGroupDifference <= 100.0
      && rr.significanceScore >= 0.0
      && fr.pValue - 0.0005 <= rr.pValue as real <= fr.pValue + 0.0005
  {
    var rr := RoundResult(fr);
    forall g | g in rr.percentages
      ensures 0.0 <= rr.percentages[g] <= 100.0
    {
      RoundWithinIntBounds(fr.percentages[g], 1000, 0, 100);
    }
    RoundWithinIntBounds(fr.maxGroupDifference, 1000, 0, 100);
    RoundMonotone(0.0, fr.significanceScore, 1000);
    RoundOfInt(0, 1000);
    RoundError(fr.pValue, 1000);
  }

  /** Row `k` of the results table is the rounded row of the `k`-th distinct
      feature: one column per group present in the group column, each a
      percentage, a spread within [0, 100] and a non-negative score. */
  lemma ResultTableRow(df: Frame, groupVariable: string, features: seq<string>,
                       test: seq<seq<nat>> -> ChiResult, k: nat)
    requires Valid(df)
    requires FirstError(Outcomes(df, groupVariable, features, test)).None?
    requires k < |Dedup(features)|
    ensures groupVariable in Names(df)
    ensures var t := ResultTable(df, groupVariable, features, test);
      && t[k].feature == Dedup(features)[k]
      && (forall g :: g in t[k].percentages <==> Some(g) in Find(df, groupVariable).value.cells)
      && (forall g :: g in t[k].percentages ==> 0.0 <= t[k].percentages[g] <= 100.0)
      && 0.0 <= t[k].maxGroupDifference <= 100.0
      && t[k].significanceScore >= 0.0
  {
    var f := Dedup(features)[k];
    var i :| 0 <= i < |features| && features[i] == f;
    assert Outcomes(df, groupVariable, features, test)[i].Ok?;
    AnalyzeFeatureOutcome(df, groupVariable, f, test);
    var gc, fc := Find(df, groupVariable).value, Find(df, f).value;
    var chi := test(GroupTable(gc.cells, fc.cells).counts);
    var fr := FeatureRow(f, gc.cells, fc.cells, chi);
    FeatureRowSpread(f, gc.cells, fc.cells, chi);
    FeatureRowScore(f, gc.cells, fc.cells, chi);
    PercentageMapKeys(gc.cells, fc.cells);
    forall g | g in fr.percentages
      ensures 0.0 <= fr.percentages[g] <= 100.0
    {
      PercentageMapValue(gc.cells, fc.cells, g);
    }
    RoundResultBounds(fr);
  }
}
