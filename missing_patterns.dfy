/** `analyze_missing_patterns` (the same function in src/EDA/missing_values.py
    and src/eda/missing_values.py): the 0/1 indicator matrix, a chi-square
    test for every pair of columns whose names are in order, and for every
    column with a missing value the difference in outcome between the rows
    where it is missing and the rows where it is present. */
module MissingPatterns {
  import opened Wrappers
  import opened Collections
  import opened Numbers
  import opened Table
  import opened Contingency
  import opened StringOrder
  import opened PairOrder
  import opened Loops

  /** `df[col].isnull().astype(int)`: 1 at a missing cell, 0 elsewhere. */
  function IndicatorColumn(cells: seq<Cell>): (r: seq<nat>)
    ensures |r| == |cells|
    ensures forall k :: 0 <= k < |r| ==> r[k] <= 1 && (r[k] == 1 <==> cells[k].None?)
  {
    seq(|cells|, k requires 0 <= k < |cells| => if cells[k].None? then 1 else 0)
  }

  /** The indicator column adds up to the number of missing cells. */
  lemma {:induction false} IndicatorSum(cells: seq<Cell>)
    ensures SumNat(IndicatorColumn(cells)) == MissingCount(cells)
  {
    var n := |cells|;
    if n > 0 {
      IndicatorSum(cells[..n - 1]);
      assert IndicatorColumn(cells)[..n - 1] == IndicatorColumn(cells[..n - 1]);
    }
  }

  /** `missing_indicators = df.isnull().astype(int)`: one indicator column per
      column of the frame, under the same name. */
  function IndicatorMatrix(df: Frame): (m: seq<seq<nat>>)
    requires Valid(df)
    ensures |m| == |df.columns|
    ensures forall c :: 0 <= c < |m| ==> m[c] == IndicatorColumn(df.columns[c].cells)
    ensures forall c :: 0 <= c < |m| ==> |m[c]| == df.rows && SumNat(m[c]) == MissingCount(df.columns[c].cells)
  {
    forall c | 0 <= c < |df.columns| ensures SumNat(IndicatorColumn(df.columns[c].cells)) == MissingCount(df.columns[c].cells) {
      IndicatorSum(df.columns[c].cells);
    }
    seq(|df.columns|, c requires 0 <= c < |df.columns| => IndicatorColumn(df.columns[c].cells))
  }

  // ---------------------------------------------------------------------
  // Pairwise pass (src/EDA/missing_values.py:129-141)

  datatype PairRow = PairRow(variable1: string, variable2: string, chi2Statistic: real, pValue: Prob)

  /** `pd.crosstab(missing_indicators[col1], missing_indicators[col2])`. */
  function PairTable(df: Frame, i: nat, j: nat): Crosstab<nat, nat>
    requires Valid(df) && i < |df.columns| && j < |df.columns|
  {
    var a, b := IndicatorColumn(df.columns[i].cells), IndicatorColumn(df.columns[j].cells);
    assert |a| == df.rows == |b|;
    CrossTab(AllPresent(a), AllPresent(b))
  }

  /** Indicators are never missing, so every row lands in the pair's table:
      its counts add up to the number of rows and it is empty exactly when
      the frame has no rows. */
  lemma PairTableTotal(df: Frame, i: nat, j: nat)
    requires Valid(df) && i < |df.columns| && j < |df.columns|
    ensures TableTotal(PairTable(df, i, j)) == df.rows
    ensures PairTable(df, i, j).rowLabels == [] <==> df.rows == 0
    ensures PairTable(df, i, j).colLabels == [] <==> df.rows == 0
  {
    var a, b := IndicatorColumn(df.columns[i].cells), IndicatorColumn(df.columns[j].cells);
    assert ValidColumn(df.columns[i], df.rows) && ValidColumn(df.columns[j], df.rows);
    CrossTabTotal(AllPresent(a), AllPresent(b));
    CrossTabEmpty(AllPresent(a), AllPresent(b));
    AllPresentBoth(AllPresent(a), b);
    PresentAll(a);
  }

  /** The labels of a pair's table are indicator values, 0 or 1, so the
      table is at most 2×2. */
  lemma PairTableLabels(df: Frame, i: nat, j: nat)
    requires Valid(df) && i < |df.columns| && j < |df.columns|
    ensures forall k :: 0 <= k < |PairTable(df, i, j).rowLabels| ==> PairTable(df, i, j).rowLabels[k] <= 1
    ensures forall k :: 0 <= k < |PairTable(df, i, j).colLabels| ==> PairTable(df, i, j).colLabels[k] <= 1
  {
    var a, b := IndicatorColumn(df.columns[i].cells), IndicatorColumn(df.columns[j].cells);
    assert ValidColumn(df.columns[i], df.rows) && ValidColumn(df.columns[j], df.rows);
    CrossTabLabels(AllPresent(a), AllPresent(b));
    assert forall x :: Some(x) in AllPresent(a) ==> x <= 1;
    assert forall y :: Some(y) in AllPresent(b) ==> y <= 1;
  }

  /** The body of the inner loop for a kept pair of column positions: the
      chi-square test on the pair's table, then the row it appends. */
  function PairStep(df: Frame, test: seq<seq<nat>> -> ChiResult, p: (nat, nat)): Result<PairRow, Error>
    requires Valid(df) && p.0 < |df.columns| && p.1 < |df.columns|
  {
    var chi :- ChiSquare(test, PairTable(df, p.0, p.1));
    Ok(PairRow(df.columns[p.0].name, df.columns[p.1].name, chi.statistic, chi.pValue))
  }

  /** `PairStep` as the step of the nested loop, which only ever visits
      positions of the frame's columns; any other position is given the
      value `Err(EmptyTable)`, which no run of the loop observes. */
  function PairStepOf(df: Frame, test: seq<seq<nat>> -> ChiResult): (step: ((nat, nat)) -> Result<PairRow, Error>)
    requires Valid(df)
    ensures forall p: (nat, nat) :: p.0 < |df.columns| && p.1 < |df.columns| ==> step(p) == PairStep(df, test, p)
  {
    (p: (nat, nat)) => if p.0 < |df.columns| && p.1 < |df.columns| then PairStep(df, test, p) else Err(EmptyTable)
  }

  /** The test on a pair fails, with scipy's error, exactly when the frame
      has no rows; otherwise the row names the pair's columns and carries
      the test's result on a table that counts every row of the frame. */
  lemma PairStepFacts(df: Frame, test: seq<seq<nat>> -> ChiResult, p: (nat, nat))
    requires Valid(df) && p.0 < |df.columns| && p.1 < |df.columns|
    ensures PairStep(df, test, p).Err? <==> df.rows == 0
    ensures PairStep(df, test, p).Err? ==> PairStep(df, test, p).error == EmptyTable
    ensures PairStep(df, test, p).Ok? ==>
      && TableTotal(PairTable(df, p.0, p.1)) == df.rows
      && PairStep(df, test, p).value.variable1 == df.columns[p.0].name
      && PairStep(df, test, p).value.variable2 == df.columns[p.1].name
      && PairStep(df, test, p).value.chi2Statistic == test(PairTable(df, p.0, p.1).counts).statistic
      && PairStep(df, test, p).value.pValue == test(PairTable(df, p.0, p.1).counts).pValue
  {
    PairTableTotal(df, p.0, p.1);
  }

  /** What the pairwise pass produces: a row per kept pair in loop order, or
      the error of the first pair whose test fails. */
  function PairRows(df: Frame, test: seq<seq<nat>> -> ChiResult): Result<seq<PairRow>, Error>
    requires Valid(df)
  {
    AllOk(PairSteps(Names(df), PairStepOf(df, test)))
  }

  /** The pairwise pass: the nested loop over the indicator columns. */
  method PairwiseChiSquare(df: Frame, test: seq<seq<nat>> -> ChiResult) returns (r: Result<seq<PairRow>, Error>)
    requires Valid(df)
    ensures r == PairRows(df, test)
  {
    r := ForEachPair(Names(df), PairStepOf(df, test));
  }

  /** Among at least two columns some pair has its names in order. */
  lemma SomePair(names: seq<string>)
    requires forall a, b :: 0 <= a < b < |names| ==> names[a] != names[b]
    ensures |Pairs(names)| > 0 <==> |names| >= 2
  {
    PairsCount(names);
    if |names| >= 2 {
      assert |names| * (|names| - 1) > 0;
    }
  }

  /** The pass fails, with scipy's error on the first (empty) table, exactly
      when the frame has no rows and at least two columns. */
  lemma PairRowsError(df: Frame, test: seq<seq<nat>> -> ChiResult)
    requires Valid(df)
    ensures PairRows(df, test).Err? <==> df.rows == 0 && |df.columns| >= 2
    ensures PairRows(df, test).Err? ==> PairRows(df, test).error == EmptyTable
  {
    var names := Names(df);
    var ps := Pairs(names);
    var steps := PairSteps(names, PairStepOf(df, test));
    SomePair(names);
    if df.rows == 0 && |ps| > 0 {
      PairStepFacts(df, test, ps[0]);
      FirstErrorAt(steps, 0);
    } else if df.rows > 0 {
      forall k | 0 <= k < |steps| ensures steps[k].Ok? {
        PairStepFacts(df, test, ps[k]);
      }
    }
  }

  /** Row `k` of the pairwise table reports the `k`-th kept pair: it names the
      pair's columns and carries the test's p-value on the pair's table. */
  lemma PairRowsRows(df: Frame, test: seq<seq<nat>> -> ChiResult)
    requires Valid(df)
    ensures PairRows(df, test).Ok? ==>
      var rows, ps := PairRows(df, test).value, Pairs(Names(df));
      && |rows| == |ps|
      && forall k :: 0 <= k < |rows| ==>
           && ps[k].0 < |df.columns| && ps[k].1 < |df.columns|
           && rows[k].variable1 == df.columns[ps[k].0].name
           && rows[k].variable2 == df.columns[ps[k].1].name
           && rows[k].pValue == test(PairTable(df, ps[k].0, ps[k].1).counts).pValue
  {
    var ps := Pairs(Names(df));
    if PairRows(df, test).Ok? {
      forall k | 0 <= k < |ps| ensures PairStep(df, test, ps[k]).Ok? ==>
        && PairStep(df, test, ps[k]).value.variable1 == df.columns[ps[k].0].name
        && PairStep(df, test, ps[k]).value.variable2 == df.columns[ps[k].1].name
        && PairStep(df, test, ps[k]).value.pValue == test(PairTable(df, ps[k].0, ps[k].1).counts).pValue
      {
        PairStepFacts(df, test, ps[k]);
      }
    }
  }

  /** Rows that report the kept pairs, in order, name two columns whose
      names are in order and never the same two columns twice. */
  lemma ReportedPairs(df: Frame, rows: seq<PairRow>)
    requires Valid(df)
    requires |rows| == |Pairs(Names(df))|
    requires forall k :: 0 <= k < |rows| ==>
      && Pairs(Names(df))[k].0 < |df.columns| && Pairs(Names(df))[k].1 < |df.columns|
      && rows[k].variable1 == df.columns[Pairs(Names(df))[k].0].name
      && rows[k].variable2 == df.columns[Pairs(Names(df))[k].1].name
    ensures 2 * |rows| == |df.columns| * (|df.columns| - 1)
    ensures forall k :: 0 <= k < |rows| ==> LexLess(rows[k].variable1, rows[k].variable2)
    ensures forall a, b :: 0 <= a < b < |rows| ==>
      (rows[a].variable1, rows[a].variable2) != (rows[b].variable1, rows[b].variable2)
  {
    var names := Names(df);
    var ps := Pairs(names);
    PairsSpec(names);
    PairsCount(names);
    forall a, b | 0 <= a < b < |rows|
      ensures (rows[a].variable1, rows[a].variable2) != (rows[b].variable1, rows[b].variable2)
    {
      assert Before(ps[a], ps[b]);
      if ps[a].0 != ps[b].0 {
        assert names[ps[a].0] != names[ps[b].0];
      } else {
        assert names[ps[a].1] != names[ps[b].1];
      }
    }
  }

  /** The pairwise table, when there is one, holds C·(C−1)/2 rows for C
      columns, each naming two columns whose names are in order, each pair
      once. */
  lemma PairRowsFacts(df: Frame, test: seq<seq<nat>> -> ChiResult)
    requires Valid(df)
    ensures PairRows(df, test).Ok? ==>
      var rows := PairRows(df, test).value;
      && 2 * |rows| == |df.columns| * (|df.columns| - 1)
      && (forall k :: 0 <= k < |rows| ==> LexLess(rows[k].variable1, rows[k].variable2))
      && (forall a, b :: 0 <= a < b < |rows| ==>
            (rows[a].variable1, rows[a].variable2) != (rows[b].variable1, rows[b].variable2))
  {
    PairRowsRows(df, test);
    if PairRows(df, test).Ok? {
      ReportedPairs(df, PairRows(df, test).value);
    }
  }

  // ---------------------------------------------------------------------
  // Outcome pass (src/EDA/missing_values.py:146-168)

  datatype OutcomeRow = OutcomeRow(
    variable: string,
    timeDiffPValue: real,
    eventDiffPValue: Prob,
    missingEventRate: Option<real>,
    presentEventRate: Option<real>)

  /** `df[mask == side][column].dropna()`: the present values of the rows on
      one side of the mask, in row order. */
  function PresentWhere(vals: seq<Option<real>>, mask: seq<bool>, side: bool): (r: seq<real>)
    requires |vals| == |mask|
    ensures |r| <= |vals|
    ensures forall i :: 0 <= i < |r| ==> Some(r[i]) in vals
  {
    if |vals| == 0 then []
    else
      var n := |vals|;
      var prefix := PresentWhere(vals[..n - 1], mask[..n - 1], side);
      assert vals == vals[..n - 1] + [vals[n - 1]];
      if mask[n - 1] == side && vals[n - 1].Some? then prefix + [vals[n - 1].value] else prefix
  }

  /** The column with every row off `side` of the mask blanked out. */
  function OnSide(vals: seq<Option<real>>, mask: seq<bool>, side: bool): (r: seq<Option<real>>)
    requires |vals| == |mask|
    ensures |r| == |vals|
    ensures forall k :: 0 <= k < |vals| ==> r[k] == if mask[k] == side then vals[k] else None
  {
    seq(|vals|, k requires 0 <= k < |vals| => if mask[k] == side then vals[k] else None)
  }

  /** `PresentWhere` keeps the present values of exactly the rows whose mask
      entry is `side`, each once and in row order. */
  lemma PresentWhereSide(vals: seq<Option<real>>, mask: seq<bool>, side: bool)
    requires |vals| == |mask|
    ensures PresentWhere(vals, mask, side) == Present(OnSide(vals, mask, side))
    ensures PicksPresent(OnSide(vals, mask, side), PresentPositions(OnSide(vals, mask, side)), PresentWhere(vals, mask, side))
  {
    PresentOnSide(vals, mask, side);
    PresentInOrder(OnSide(vals, mask, side));
  }

  lemma {:induction false} PresentOnSide(vals: seq<Option<real>>, mask: seq<bool>, side: bool)
    requires |vals| == |mask|
    ensures PresentWhere(vals, mask, side) == Present(OnSide(vals, mask, side))
  {
    var n := |vals|;
    if n > 0 {
      PresentOnSide(vals[..n - 1], mask[..n - 1], side);
      var o := OnSide(vals, mask, side);
      assert o == OnSide(vals[..n - 1], mask[..n - 1], side) + [o[n - 1]];
      PresentSnoc(OnSide(vals[..n - 1], mask[..n - 1], side), o[n - 1]);
    }
  }

  /** The two sides of the mask split the present values: together they hold
      each present value once, so their sizes and sums add up to those of all
      present values. */
  lemma {:induction false} PresentWherePartition(vals: seq<Option<real>>, mask: seq<bool>)
    requires |vals| == |mask|
    ensures multiset(PresentWhere(vals, mask, true)) + multiset(PresentWhere(vals, mask, false))
         == multiset(Present(vals))
    ensures |PresentWhere(vals, mask, true)| + |PresentWhere(vals, mask, false)| == |Present(vals)|
    ensures Sum(PresentWhere(vals, mask, true)) + Sum(PresentWhere(vals, mask, false)) == Sum(Present(vals))
  {
    var n := |vals|;
    if n > 0 {
      var v, m := vals[..n - 1], mask[..n - 1];
      PresentWherePartition(v, m);
      var t, f, p := PresentWhere(v, m, true), PresentWhere(v, m, false), Present(v);
      var t', f', p' := PresentWhere(vals, mask, true), PresentWhere(vals, mask, false), Present(vals);
      if vals[n - 1].Some? {
        var x := vals[n - 1].value;
        assert p' == p + [x];
        if mask[n - 1] {
          assert t' == t + [x] && f' == f;
          SplitExtend(t, f, p, x);
        } else {
          assert t' == t && f' == f + [x];
          SplitExtend(f, t, p, x);
        }
      } else {
        assert t' == t && f' == f && p' == p;
      }
    }
  }

  /** A new value added to one side of a split is added to the whole. */
  lemma SplitExtend(a: seq<real>, b: seq<real>, p: seq<real>, x: real)
    requires multiset(a) + multiset(b) == multiset(p) && |a| + |b| == |p| && Sum(a) + Sum(b) == Sum(p)
    ensures multiset(a + [x]) + multiset(b) == multiset(p + [x])
    ensures |a + [x]| + |b| == |p + [x]|
    ensures Sum(a + [x]) + Sum(b) == Sum(p + [x])
  {
    SumAppend(a, [x]);
    SumAppend(p, [x]);
    assert [x][..0] == [];
  }

  /** An event rate of 0/1 outcomes lies in [0, 1]. */
  lemma EventRateBounds(vals: seq<Option<real>>, mask: seq<bool>, side: bool)
    requires |vals| == |mask|
    requires forall k :: 0 <= k < |vals| && vals[k].Some? ==> 0.0 <= vals[k].value <= 1.0
    ensures Mean(PresentWhere(vals, mask, side)).Some? ==> 0.0 <= Mean(PresentWhere(vals, mask, side)).value <= 1.0
  {
    var s := PresentWhere(vals, mask, side);
    forall i | 0 <= i < |s| ensures 0.0 <= s[i] <= 1.0 {
      var k :| 0 <= k < |vals| && vals[k] == Some(s[i]);
    }
    MeanBounds(s, 0.0, 1.0);
  }

  /** The overall event rate is the size-weighted combination of the two
      side rates. */
  lemma EventRateRecombines(vals: seq<Option<real>>, mask: seq<bool>)
    requires |vals| == |mask|
    requires |PresentWhere(vals, mask, true)| > 0 && |PresentWhere(vals, mask, false)| > 0
    ensures Mean(Present(vals)).Some?
    ensures Weighted(Mean(Present(vals)).value, |Present(vals)|)
        == Weighted(Mean(PresentWhere(vals, mask, true)).value, |PresentWhere(vals, mask, true)|)
         + Weighted(Mean(PresentWhere(vals, mask, false)).value, |PresentWhere(vals, mask, false)|)
  {
    PresentWherePartition(vals, mask);
    WeightedMean(PresentWhere(vals, mask, true), PresentWhere(vals, mask, false), Present(vals));
  }

  /** One iteration of the outcome loop for a column with a missing value
      (lines 151-168): the Mann–Whitney p-value of `efs_time` between the
      missing and present rows, the chi-square p-value of missingness
      against `efs`, and the mean `efs` on each side. `df[...]` lookups and
      the numeric conversions happen in source order. */
  function OutcomeFor(df: Frame, c: Column, mw: (seq<real>, seq<real>) -> real,
                      test: seq<seq<nat>> -> ChiResult): Result<OutcomeRow, Error>
    requires Valid(df) && ValidColumn(c, df.rows)
  {
    var mask := Indicator(c.cells);
    var timeColumn :- Find(df, "efs_time");
    assert ValidColumn(timeColumn, df.rows);
    var times :- NumericCells(timeColumn);
    var timeP := mw(PresentWhere(times, mask, true), PresentWhere(times, mask, false));
    var eventColumn :- Find(df, "efs");
    assert ValidColumn(eventColumn, df.rows);
    var event :- ChiSquare(test, CrossTab(AllPresent(mask), eventColumn.cells));
    var events :- NumericCells(eventColumn);
    Ok(OutcomeRow(c.name, timeP, event.pValue,
                  Mean(PresentWhere(events, mask, true)), Mean(PresentWhere(events, mask, false))))
  }

  /** The iteration raises `KeyError` for a missing `efs_time`, a type error
      for a non-numeric one, then `KeyError` for a missing `efs`, scipy's
      error when no row has an `efs` value, and a type error for a
      non-numeric `efs`; otherwise its row names the column and holds the
      rank test of the present `efs_time` values of the missing rows against
      those of the present rows, the chi-square test of missingness against
      `efs`, and the mean outcome on each side. */
  lemma OutcomeForFacts(df: Frame, c: Column, mw: (seq<real>, seq<real>) -> real,
                        test: seq<seq<nat>> -> ChiResult)
    requires Valid(df) && ValidColumn(c, df.rows)
    ensures var r := OutcomeFor(df, c, mw, test);
      && ("efs_time" !in Names(df) ==> r == Err(KeyError("efs_time")))
      && ("efs_time" in Names(df) && !IsNumeric(Find(df, "efs_time").value.dtype) ==>
            r == Err(NotNumeric("efs_time")))
      && ("efs_time" in Names(df) && IsNumeric(Find(df, "efs_time").value.dtype) ==>
            var times := NumericCells(Find(df, "efs_time").value).value;
            && ("efs" !in Names(df) ==> r == Err(KeyError("efs")))
            && ("efs" in Names(df) ==>
                  var events := Find(df, "efs").value;
                  && (|Present(events.cells)| == 0 ==> r == Err(EmptyTable))
                  && (|Present(events.cells)| > 0 && !IsNumeric(events.dtype) ==> r == Err(NotNumeric("efs")))
                  && (|Present(events.cells)| > 0 && IsNumeric(events.dtype) ==>
                        && r.Ok?
                        && r.value.variable == c.name
                        && r.value.timeDiffPValue == mw(PresentWhere(times, Indicator(c.cells), true),
                                                        PresentWhere(times, Indicator(c.cells), false))
                        && r.value.eventDiffPValue == test(CrossTab(AllPresent(Indicator(c.cells)), events.cells).counts).pValue
                        && r.value.missingEventRate == Mean(PresentWhere(NumericCells(events).value, Indicator(c.cells), true))
                        && r.value.presentEventRate == Mean(PresentWhere(NumericCells(events).value, Indicator(c.cells), false)))))
  {
    if "efs" in Names(df) {
      var events := Find(df, "efs").value;
      assert ValidColumn(events, df.rows);
      var mask := Indicator(c.cells);
      CrossTabEmpty(AllPresent(mask), events.cells);
      AllPresentBoth(events.cells, mask);
      BothSymmetric(AllPresent(mask), events.cells);
    }
  }

  /** Whether a row is counted does not depend on which column comes first. */
  lemma {:induction false} BothSymmetric<R, C>(xs: seq<Option<R>>, ys: seq<Option<C>>)
    requires |xs| == |ys|
    ensures BothPresent(xs, ys) == BothPresent(ys, xs)
  {
    if |xs| > 0 {
      BothSymmetric(xs[..|xs| - 1], ys[..|ys| - 1]);
    }
  }

  function OutcomeStepOf(df: Frame, mw: (seq<real>, seq<real>) -> real,
                         test: seq<seq<nat>> -> ChiResult): Column --> Result<OutcomeRow, Error>
    requires Valid(df)
  {
    (c: Column) requires Valid(df) && ValidColumn(c, df.rows) => OutcomeFor(df, c, mw, test)
  }

  /** Every column of a valid frame can be given to the iteration. */
  lemma OutcomeStepDefined(df: Frame, mw: (seq<real>, seq<real>) -> real, test: seq<seq<nat>> -> ChiResult)
    requires Valid(df)
    ensures forall c :: c in df.columns ==> OutcomeStepOf(df, mw, test).requires(c)
  {
    forall c | c in df.columns ensures ValidColumn(c, df.rows) {
      var i :| 0 <= i < |df.columns| && df.columns[i] == c;
    }
  }

  /** What the outcome pass produces: a row for every column with a missing
      value, in column order, or the error of the first iteration that
      raises. */
  function OutcomeRows(df: Frame, mw: (seq<real>, seq<real>) -> real,
                       test: seq<seq<nat>> -> ChiResult): Result<seq<OutcomeRow>, Error>
    requires Valid(df)
  {
    OutcomeStepDefined(df, mw, test);
    AllOk(KeptSteps(df.columns, HasMissing, OutcomeStepOf(df, mw, test)))
  }

  /** The outcome pass (lines 146-168): the loop over the columns, skipping
      those without a missing value and stopping at the first exception. */
  method OutcomeAnalysis(df: Frame, mw: (seq<real>, seq<real>) -> real, test: seq<seq<nat>> -> ChiResult)
    returns (r: Result<seq<OutcomeRow>, Error>)
    requires Valid(df)
    ensures r == OutcomeRows(df, mw, test)
  {
    OutcomeStepDefined(df, mw, test);
    r := ForEachKept(df.columns, HasMissing, OutcomeStepOf(df, mw, test));
  }

  /** Whether an iteration raises, and with what, does not depend on the
      column: only on the `efs_time` and `efs` columns. */
  lemma OutcomeForError(df: Frame, c: Column, d: Column, mw: (seq<real>, seq<real>) -> real,
                        test: seq<seq<nat>> -> ChiResult)
    requires Valid(df) && ValidColumn(c, df.rows) && ValidColumn(d, df.rows)
    ensures OutcomeFor(df, c, mw, test).Err? <==> OutcomeFor(df, d, mw, test).Err?
    ensures OutcomeFor(df, c, mw, test).Err? ==> OutcomeFor(df, c, mw, test).error == OutcomeFor(df, d, mw, test).error
  {
    OutcomeForFacts(df, c, mw, test);
    OutcomeForFacts(df, d, mw, test);
  }

  /** With no column missing a value the pass is empty; otherwise it raises
      exactly when the iteration for the first such column does, with the
      same error. */
  lemma OutcomeRowsError(df: Frame, mw: (seq<real>, seq<real>) -> real, test: seq<seq<nat>> -> ChiResult)
    requires Valid(df)
    ensures var cols := ColumnsWithMissing(df.columns);
      && (|cols| == 0 ==> OutcomeRows(df, mw, test) == Ok([]))
      && (|cols| > 0 ==>
            && ValidColumn(cols[0], df.rows)
            && (OutcomeRows(df, mw, test).Err? <==> OutcomeFor(df, cols[0], mw, test).Err?)
            && (OutcomeRows(df, mw, test).Err? ==>
                  OutcomeRows(df, mw, test).error == OutcomeFor(df, cols[0], mw, test).error))
  {
    var cols := ColumnsWithMissing(df.columns);
    OutcomeStepDefined(df, mw, test);
    var steps := KeptSteps(df.columns, HasMissing, OutcomeStepOf(df, mw, test));
    assert forall k :: 0 <= k < |cols| ==> cols[k] in df.columns && ValidColumn(cols[k], df.rows);
    if |cols| > 0 {
      if steps[0].Err? {
        FirstErrorAt(steps, 0);
      } else {
        forall k | 0 <= k < |steps| ensures steps[k].Ok? {
          OutcomeForError(df, cols[0], cols[k], mw, test);
        }
      }
    }
  }

  /** A successful pass holds one row per column with a missing value, in
      column order, each the iteration's row for that column and naming it. */
  lemma OutcomeRowsValues(df: Frame, mw: (seq<real>, seq<real>) -> real, test: seq<seq<nat>> -> ChiResult)
    requires Valid(df)
    ensures OutcomeRows(df, mw, test).Ok? ==>
      var rows, cols := OutcomeRows(df, mw, test).value, ColumnsWithMissing(df.columns);
      && |rows| == |cols|
      && forall k :: 0 <= k < |rows| ==>
           && HasMissing(cols[k])
           && ValidColumn(cols[k], df.rows)
           && OutcomeFor(df, cols[k], mw, test) == Ok(rows[k])
           && rows[k].variable == cols[k].name
  {
    var cols := ColumnsWithMissing(df.columns);
    OutcomeStepDefined(df, mw, test);
    assert forall k :: 0 <= k < |cols| ==> cols[k] in df.columns && ValidColumn(cols[k], df.rows);
    forall k | 0 <= k < |cols|
      ensures OutcomeFor(df, cols[k], mw, test).Ok? ==> OutcomeFor(df, cols[k], mw, test).value.variable == cols[k].name
    {
      OutcomeForName(df, cols[k], mw, test);
    }
  }

  lemma OutcomeForName(df: Frame, c: Column, mw: (seq<real>, seq<real>) -> real,
                       test: seq<seq<nat>> -> ChiResult)
    requires Valid(df) && ValidColumn(c, df.rows)
    ensures OutcomeFor(df, c, mw, test).Ok? ==> OutcomeFor(df, c, mw, test).value.variable == c.name
  {
  }

  // ---------------------------------------------------------------------
  // The whole function (src/EDA/missing_values.py:113-171)

  /** What `analyze_missing_patterns` produces, without its file output: the
      pairwise table and then the outcome table. An exception in the
      pairwise pass ends the function before the outcome pass runs. */
  function Patterns(df: Frame, mw: (seq<real>, seq<real>) -> real, test: seq<seq<nat>> -> ChiResult)
    : Result<(seq<PairRow>, seq<OutcomeRow>), Error>
    requires Valid(df)
  {
    var pairs :- PairRows(df, test);
    var outcomes :- OutcomeRows(df, mw, test);
    Ok((pairs, outcomes))
  }

  /** The passes in source order: the indicator matrix, the pairwise loop,
      the outcome loop. */
  method AnalyzeMissingPatterns(df: Frame, mw: (seq<real>, seq<real>) -> real, test: seq<seq<nat>> -> ChiResult)
    returns (r: Result<(seq<PairRow>, seq<OutcomeRow>), Error>)
    requires Valid(df)
    ensures r == Patterns(df, mw, test)
  {
    var indicators := IndicatorMatrix(df);
    var pairs :- PairwiseChiSquare(df, test);
    var outcomes :- OutcomeAnalysis(df, mw, test);
    r := Ok((pairs, outcomes));
  }

  /** A frame without rows but with two columns raises in the pairwise pass,
      whatever the outcome pass would do. Otherwise the function raises
      exactly when the outcome pass does; when it succeeds it returns both
      tables: C·(C−1)/2 pair rows and one outcome row per column with a
      missing value. */
  lemma PatternsFacts(df: Frame, mw: (seq<real>, seq<real>) -> real, test: seq<seq<nat>> -> ChiResult)
    requires Valid(df)
    ensures var r := Patterns(df, mw, test);
      && (df.rows == 0 && |df.columns| >= 2 ==> r == Err(EmptyTable))
      && (!(df.rows == 0 && |df.columns| >= 2) ==>
            && PairRows(df, test).Ok?
            && (r.Err? <==> OutcomeRows(df, mw, test).Err?)
            && (r.Err? ==> r.error == OutcomeRows(df, mw, test).error))
      && (r.Ok? ==>
            && r.value.0 == PairRows(df, test).value
            && r.value.1 == OutcomeRows(df, mw, test).value
            && 2 * |r.value.0| == |df.columns| * (|df.columns| - 1)
            && |r.value.1| == |ColumnsWithMissing(df.columns)|)
  {
    PairRowsError(df, test);
    PairRowsFacts(df, test);
    OutcomeRowsValues(df, mw, test);
  }
}
