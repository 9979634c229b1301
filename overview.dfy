/** The counting parts of `initial_data_overview` and `comprehensive_eda`
    (src/eda/analysis.py): the row and column counts, the missing-value
    summary, the cardinality of the label columns, the quality metrics
    (missing percentages, duplicate rows, unique counts) and the event and
    censoring rates of the `efs` outcome. */
module Overview {
  import opened Wrappers
  import opened Collections
  import opened Numbers
  import opened Table

  /** Every column of a valid frame has one cell per row. */
  lemma ColumnsValid(df: Frame)
    requires Valid(df)
    ensures forall c :: c in df.columns ==> ValidColumn(c, df.rows)
  {
    forall c | c in df.columns ensures ValidColumn(c, df.rows) {
      var i :| 0 <= i < |df.columns| && df.columns[i] == c;
    }
  }

  // ---------------------------------------------------------------------
  // Basic information (lines 20-27)

  /** `basic_info` without the memory usage: `len(df)` and `len(df.columns)`. */
  datatype BasicInfo = BasicInfo(rows: nat, columns: nat)

  /** The row count is the length of the index, which every column has, and
      the column count is the number of columns, which are distinctly named.
      A frame without columns still has its index length. */
  function Info(df: Frame): (r: BasicInfo)
    requires Valid(df)
    ensures r.rows == df.rows && r.columns == |df.columns|
    ensures forall i :: 0 <= i < |df.columns| ==> |df.columns[i].cells| == r.rows
    ensures r.columns == |set n | n in Names(df)|
  {
    DistinctCardinality(Names(df));
    BasicInfo(df.rows, |df.columns|)
  }

  // ---------------------------------------------------------------------
  // Missing-value summary (lines 37-44)

  /** `missing / len(df) * 100`: the missing share of a column, in percent. */
  function MissingShare(count: nat, rows: nat): real
    requires rows > 0
  {
    count as real / rows as real * 100.0
  }

  /** A share of at most all rows lies in [0, 100], and is zero exactly when
      nothing is missing. */
  lemma MissingShareBounds(count: nat, rows: nat)
    requires 0 < rows && count <= rows
    ensures 0.0 <= MissingShare(count, rows) <= 100.0
    ensures MissingShare(count, rows) == 0.0 <==> count == 0
  {
    assert count as real / rows as real <= 1.0;
  }

  /** One row of `missing_summary`: column, `Missing Count`, `Missing Percentage`. */
  datatype MissingRow = MissingRow(column: string, count: nat, percentage: real)

  function SummaryRow(c: Column, rows: nat): MissingRow
    requires ValidColumn(c, rows) && None in c.cells
  {
    MissingCountSplit(c.cells);
    MissingRow(c.name, MissingCount(c.cells), Round2(MissingShare(MissingCount(c.cells), rows)))
  }

  /** `missing_summary`: the count and rounded percentage of every column,
      restricted by the query to the columns with a missing value. */
  function MissingSummary(df: Frame): seq<MissingRow>
    requires Valid(df)
  {
    var cols := ColumnsWithMissing(df.columns);
    ColumnsValid(df);
    seq(|cols|, k requires 0 <= k < |cols| => SummaryRow(cols[k], df.rows))
  }

  /** Each summary row describes the column at the matching kept position: its
      count is the number of missing cells (so positive), and its percentage
      is that count over the row count, times 100, rounded to two places,
      which keeps it in [0, 100] and within 0.005 of the exact share. */
  lemma MissingSummaryRow(df: Frame, k: nat)
    requires Valid(df) && k < |MissingSummary(df)|
    ensures var r, idx := MissingSummary(df), FilterIndices(df.columns, HasMissing);
      && k < |idx| && idx[k] < |df.columns|
      && var c := df.columns[idx[k]];
         && r[k].column == c.name
         && r[k].count == multiset(c.cells)[None]
         && r[k].count > 0
         && df.rows > 0
         && r[k].percentage == Round2(MissingShare(r[k].count, df.rows))
         && 0.0 <= r[k].percentage <= 100.0
         && MissingShare(r[k].count, df.rows) - 0.005 <= r[k].percentage <= MissingShare(r[k].count, df.rows) + 0.005
  {
    var cols, idx := ColumnsWithMissing(df.columns), FilterIndices(df.columns, HasMissing);
    var c := cols[k];
    assert c == df.columns[idx[k]];
    assert ValidColumn(c, df.rows);
    MissingCountSplit(c.cells);
    var share := MissingShare(MissingCount(c.cells), df.rows);
    MissingShareBounds(MissingCount(c.cells), df.rows);
    RoundWithinIntBounds(share, 100, 0, 100);
    RoundError(share, 100);
  }

  /** The summary holds a row for a column exactly when the column has a
      missing value, and the rows come in column order. */
  lemma MissingSummaryColumns(df: Frame)
    requires Valid(df)
    ensures var r, idx := MissingSummary(df), FilterIndices(df.columns, HasMissing);
      && |r| == |idx|
      && (forall a, b :: 0 <= a < b < |idx| ==> idx[a] < idx[b])
      && (forall i :: 0 <= i < |df.columns| ==>
            (None in df.columns[i].cells <==> exists k :: 0 <= k < |r| && r[k].column == df.columns[i].name))
  {
    forall i | 0 <= i < |df.columns|
      ensures None in df.columns[i].cells <==> exists k :: 0 <= k < |MissingSummary(df)| && MissingSummary(df)[k].column == df.columns[i].name
    {
      if None in df.columns[i].cells {
        SummaryHasColumn(df, i);
      }
      if exists k :: 0 <= k < |MissingSummary(df)| && MissingSummary(df)[k].column == df.columns[i].name {
        var k :| 0 <= k < |MissingSummary(df)| && MissingSummary(df)[k].column == df.columns[i].name;
        SummaryColumnHas(df, i, k);
      }
    }
  }

  lemma SummaryHasColumn(df: Frame, i: nat)
    requires Valid(df) && i < |df.columns| && None in df.columns[i].cells
    ensures exists k :: 0 <= k < |MissingSummary(df)| && MissingSummary(df)[k].column == df.columns[i].name
  {
    var r, cols := MissingSummary(df), ColumnsWithMissing(df.columns);
    var k :| 0 <= k < |cols| && cols[k] == df.columns[i];
    assert r[k].column == df.columns[i].name;
  }

  lemma SummaryColumnHas(df: Frame, i: nat, k: nat)
    requires Valid(df) && i < |df.columns| && k < |MissingSummary(df)|
    requires MissingSummary(df)[k].column == df.columns[i].name
    ensures None in df.columns[i].cells
  {
    var cols := ColumnsWithMissing(df.columns);
    var j :| 0 <= j < |df.columns| && df.columns[j] == cols[k];
    assert Names(df)[j] == Names(df)[i];
  }

  // ---------------------------------------------------------------------
  // Unique counts and cardinality (lines 51-55 and 77)

  /** `Series.nunique()`: the number of distinct present values. */
  function NUnique(cells: seq<Cell>): nat {
    |Dedup(Present(cells))|
  }

  /** The unique count is the size of the set of present values, so it leaves
      out the missing cells; it is zero exactly when every cell is missing. */
  lemma NUniqueBounds(cells: seq<Cell>)
    ensures NUnique(cells) == |set v | v in Present(cells)|
    ensures NUnique(cells) + MissingCount(cells) <= |cells|
    ensures NUnique(cells) == 0 <==> MissingCount(cells) == |cells|
  {
    DedupCardinality(Present(cells));
    MissingCountSplit(cells);
    if |Present(cells)| > 0 {
      assert Present(cells)[0] in Dedup(Present(cells));
    }
  }

  /** One entry of `df.nunique()` or of `cardinality`. */
  datatype CountRow = CountRow(column: string, count: nat)

  function UniqueRow(c: Column): CountRow {
    CountRow(c.name, NUnique(c.cells))
  }

  /** `df.nunique()`: one count per column, in column order. */
  function UniqueCounts(df: Frame): (r: seq<CountRow>)
    requires Valid(df)
    ensures |r| == |df.columns|
    ensures forall i :: 0 <= i < |r| ==>
      && r[i].column == df.columns[i].name
      && r[i].count == |set v | v in Present(df.columns[i].cells)|
      && r[i].count + MissingCount(df.columns[i].cells) <= df.rows
  {
    var r := seq(|df.columns|, i requires 0 <= i < |df.columns| => UniqueRow(df.columns[i]));
    assert forall i :: 0 <= i < |r| ==> ValidColumn(df.columns[i], df.rows);
    forall i | 0 <= i < |r|
      ensures r[i].count == |set v | v in Present(df.columns[i].cells)|
      ensures r[i].count + MissingCount(df.columns[i].cells) <= df.rows
    {
      NUniqueBounds(df.columns[i].cells);
    }
    r
  }

  /** `select_dtypes(include=['object', 'category'])`. */
  predicate IsLabel(c: Column) {
    c.dtype == Object || c.dtype == Category
  }

  /** `cardinality`: the unique count of every object or category column. */
  function Cardinality(df: Frame): seq<CountRow>
    requires Valid(df)
  {
    var cols := Filter(df.columns, IsLabel);
    seq(|cols|, k requires 0 <= k < |cols| => UniqueRow(cols[k]))
  }

  /** The cardinality table lists the label columns in column order, each
      with the entry `df.nunique()` has for it, and no other column. */
  lemma CardinalityColumns(df: Frame)
    requires Valid(df)
    ensures var r, idx := Cardinality(df), FilterIndices(df.columns, IsLabel);
      && |r| == |idx|
      && (forall a, b :: 0 <= a < b < |idx| ==> idx[a] < idx[b])
      && (forall k :: 0 <= k < |r| ==>
            && idx[k] < |df.columns|
            && IsLabel(df.columns[idx[k]])
            && r[k] == UniqueCounts(df)[idx[k]])
      && (forall i :: 0 <= i < |df.columns| && IsLabel(df.columns[i]) ==> i in idx)
  {
    var cols, idx := Filter(df.columns, IsLabel), FilterIndices(df.columns, IsLabel);
    FilterPicks(df.columns, IsLabel);
    forall i | 0 <= i < |df.columns| && IsLabel(df.columns[i]) ensures i in idx {
      FilterIndicesCover(df.columns, IsLabel, i);
    }
  }

  // ---------------------------------------------------------------------
  // Quality metrics (lines 74-78)

  /** `df.isnull().sum() / len(df) * 100` for one column: NaN (`None`) on a
      frame without rows. */
  function MissingPercent(c: Column, rows: nat): Option<real> {
    if rows == 0 then None else Some(MissingShare(MissingCount(c.cells), rows))
  }

  function MissingData(df: Frame): (r: seq<Option<real>>)
    ensures |r| == |df.columns|
    ensures forall i :: 0 <= i < |r| ==> r[i] == MissingPercent(df.columns[i], df.rows)
  {
    seq(|df.columns|, i requires 0 <= i < |df.columns| => MissingPercent(df.columns[i], df.rows))
  }

  /** A missing percentage is NaN only on a frame without rows; otherwise it
      lies in [0, 100], is zero exactly for a column without a missing value,
      and is the value the missing-value summary rounds. */
  lemma MissingDataFacts(df: Frame, i: nat)
    requires Valid(df) && i < |df.columns|
    ensures var p, c := MissingData(df)[i], df.columns[i];
      && (p.None? <==> df.rows == 0)
      && (p.Some? ==> 0.0 <= p.value <= 100.0 && (p.value == 0.0 <==> None !in c.cells))
      && (None in c.cells ==> p.Some? && SummaryRow(c, df.rows).percentage == Round2(p.value))
  {
    var c := df.columns[i];
    assert ValidColumn(c, df.rows);
    MissingCountSplit(c.cells);
    if df.rows > 0 {
      MissingShareBounds(MissingCount(c.cells), df.rows);
    }
  }

  /** The cells of row `k`, one per column. */
  function Row(df: Frame, k: nat): (r: seq<Cell>)
    requires Valid(df) && k < df.rows
    ensures |r| == |df.columns|
    ensures forall i :: 0 <= i < |df.columns| ==> |df.columns[i].cells| == df.rows && r[i] == df.columns[i].cells[k]
  {
    assert forall i :: 0 <= i < |df.columns| ==> ValidColumn(df.columns[i], df.rows);
    seq(|df.columns|, i requires 0 <= i < |df.columns| && |df.columns[i].cells| == df.rows => df.columns[i].cells[k])
  }

  function Rows(df: Frame): (r: seq<seq<Cell>>)
    requires Valid(df)
    ensures |r| == df.rows
    ensures forall k :: 0 <= k < df.rows ==> r[k] == Row(df, k)
  {
    seq(df.rows, k requires 0 <= k < df.rows => Row(df, k))
  }

  /** The number of entries equal to an earlier entry: `duplicated().sum()`
      with the default `keep='first'` (missing cells compare equal). */
  function DuplicateCount<T(==)>(s: seq<T>): nat {
    if |s| == 0 then 0
    else
      var prefix := s[..|s| - 1];
      DuplicateCount(prefix) + (if s[|s| - 1] in prefix then 1 else 0)
  }

  /** Every entry is either the first of its value or a duplicate. */
  lemma {:induction false} DuplicateCountDedup<T>(s: seq<T>)
    ensures DuplicateCount(s) + |Dedup(s)| == |s|
  {
    if |s| > 0 {
      DuplicateCountDedup(s[..|s| - 1]);
    }
  }

  /** There are no duplicates exactly when the entries are distinct. */
  lemma {:induction false} DuplicateFree<T>(s: seq<T>)
    ensures DuplicateCount(s) == 0 <==> Distinct(s)
  {
    if |s| > 0 {
      var prefix, last := s[..|s| - 1], s[|s| - 1];
      DuplicateFree(prefix);
      assert s == prefix + [last];
      DistinctSnoc(prefix, last);
    }
  }

  lemma DistinctSnoc<T>(s: seq<T>, x: T)
    ensures Distinct(s + [x]) <==> Distinct(s) && x !in s
  {
    var t := s + [x];
    if x in s {
      var j :| 0 <= j < |s| && s[j] == x;
      assert t[j] == t[|s|];
    }
    if Distinct(t) {
      assert forall i, j :: 0 <= i < j < |s| ==> s[i] == t[i] && s[j] == t[j];
    }
    if Distinct(s) && x !in s {
      assert forall i :: 0 <= i < |s| ==> t[i] == s[i];
    }
  }

  /** The number of duplicates is the number of entries less the number of
      distinct values; the first entry is never a duplicate. */
  lemma DuplicateCountBounds<T>(s: seq<T>)
    ensures DuplicateCount(s) + |set x | x in s| == |s|
    ensures |s| > 0 ==> DuplicateCount(s) <= |s| - 1
  {
    DuplicateCountDedup(s);
    DedupCardinality(s);
    if |s| > 0 {
      assert s[0] in Dedup(s);
    }
  }

  /** `df.duplicated().sum()`. pandas returns an empty mask for a frame
      without columns, so such a frame has no duplicates. */
  function Duplicates(df: Frame): nat
    requires Valid(df)
  {
    if |df.columns| == 0 then 0 else DuplicateCount(Rows(df))
  }

  /** With at least one column, the duplicate count is the number of rows
      less the number of distinct rows, and zero exactly when the rows are
      distinct; without columns it is zero; a non-empty frame has at most
      `len(df) - 1` duplicates. */
  lemma DuplicatesFacts(df: Frame)
    requires Valid(df)
    ensures |df.columns| == 0 ==> Duplicates(df) == 0
    ensures |df.columns| > 0 ==> Duplicates(df) + |set r | r in Rows(df)| == df.rows
    ensures |df.columns| > 0 ==> (Duplicates(df) == 0 <==> Distinct(Rows(df)))
    ensures df.rows > 0 ==> Duplicates(df) <= df.rows - 1
  {
    DuplicateCountBounds(Rows(df));
    DuplicateFree(Rows(df));
  }

  /** `quality_metrics`. */
  datatype Quality = Quality(missingData: seq<Option<real>>, duplicates: nat, uniqueCounts: seq<CountRow>)

  function QualityMetrics(df: Frame): (q: Quality)
    requires Valid(df)
    ensures |q.missingData| == |q.uniqueCounts| == |df.columns|
    ensures df.rows > 0 ==> q.duplicates < df.rows
  {
    DuplicatesFacts(df);
    Quality(MissingData(df), Duplicates(df), UniqueCounts(df))
  }

  // ---------------------------------------------------------------------
  // Time-based analysis (lines 81-85)

  /** `1 - x` for each value. `1 - df['efs']` keeps the missing cells
      missing, and the mean skips them, so the censoring rate is the mean of
      the complements of the present values. */
  function Complement(xs: seq<real>): (r: seq<real>)
    ensures |r| == |xs|
    ensures forall k :: 0 <= k < |xs| ==> r[k] == 1.0 - xs[k]
  {
    seq(|xs|, k requires 0 <= k < |xs| => 1.0 - xs[k])
  }

  /** The complements add up to the number of values less their sum. */
  lemma {:induction false} ComplementSum(xs: seq<real>)
    ensures Sum(Complement(xs)) == |xs| as real - Sum(xs)
  {
    var n := |xs|;
    if n > 0 {
      var p, x := xs[..n - 1], xs[n - 1];
      ComplementSum(p);
      assert Complement(xs)[..n - 1] == Complement(p);
      assert Complement(xs)[n - 1] == 1.0 - x;
    }
  }

  /** Values whose sum is their number less another sequence's sum, over as
      many values, have mean one minus that sequence's mean. */
  lemma ComplementMean(p: seq<real>, q: seq<real>)
    requires |q| == |p| && Sum(q) == |p| as real - Sum(p)
    ensures Mean(q).None? <==> Mean(p).None?
    ensures Mean(p).Some? ==> Mean(q).value == 1.0 - Mean(p).value
  {
    if |p| > 0 {
      var a, b, n := Mean(p).value, Mean(q).value, |p| as real;
      MeanTimesSize(p);
      MeanTimesSize(q);
      assert Weighted(a, |p|) == a * n && Weighted(b, |q|) == b * n;
      var sp, sq := Sum(p), Sum(q);
      assert a * n == sp && b * n == n - sp;
      CancelFactor(a, b, n, sp);
    }
  }

  lemma CancelFactor(a: real, b: real, n: real, s: real)
    requires n > 0.0 && a * n == s && b * n == n - s
    ensures b == 1.0 - a
  {
    var x := a + b - 1.0;
    assert x * n == a * n + b * n - n == 0.0;
    assert x == x * n / n;
  }

  /** `time_analysis` without the median follow-up time. */
  datatype TimeRates = TimeRates(eventRate: Option<real>, censoringRate: Option<real>)

  /** `event_rate`, `median_followup` and `censoring_rate`, evaluated in
      that order: `df['efs']` and `df['efs_time']` raise a KeyError when
      absent, and the mean and median raise on a label column. */
  function TimeAnalysis(df: Frame): Result<TimeRates, Error>
    requires Valid(df)
  {
    var efs :- Find(df, "efs");
    var events :- NumericCells(efs);
    var followup :- Find(df, "efs_time");
    var times :- NumericCells(followup);
    Ok(TimeRates(Mean(Present(events)), Mean(Complement(Present(events)))))
  }

  /** The error cases, in evaluation order: a missing or non-numeric `efs`,
      then a missing or non-numeric `efs_time`. */
  lemma TimeAnalysisErrors(df: Frame)
    requires Valid(df)
    ensures var r := TimeAnalysis(df);
      && ("efs" !in Names(df) ==> r == Err(KeyError("efs")))
      && ("efs" in Names(df) && !IsNumeric(Find(df, "efs").value.dtype) ==> r == Err(NotNumeric("efs")))
      && ("efs" in Names(df) && IsNumeric(Find(df, "efs").value.dtype) ==>
            && ("efs_time" !in Names(df) ==> r == Err(KeyError("efs_time")))
            && ("efs_time" in Names(df) && !IsNumeric(Find(df, "efs_time").value.dtype) ==> r == Err(NotNumeric("efs_time"))))
  {
  }

  /** With both columns numeric the analysis succeeds; both rates are NaN
      exactly when `efs` has no present value, and otherwise the censoring
      rate is one minus the event rate. */
  lemma TimeAnalysisRates(df: Frame)
    requires Valid(df) && "efs" in Names(df) && "efs_time" in Names(df)
    requires IsNumeric(Find(df, "efs").value.dtype) && IsNumeric(Find(df, "efs_time").value.dtype)
    ensures var r, events := TimeAnalysis(df), NumericCells(Find(df, "efs").value).value;
      && r.Ok?
      && r.value.eventRate == Mean(Present(events))
      && (r.value.eventRate.None? <==> r.value.censoringRate.None?)
      && (r.value.eventRate.Some? ==> r.value.censoringRate.value == 1.0 - r.value.eventRate.value)
  {
    var events := NumericCells(Find(df, "efs").value).value;
    ComplementSum(Present(events));
    ComplementMean(Present(events), Complement(Present(events)));
  }

  /** With 0/1 outcomes both rates are proportions. */
  lemma TimeRatesBounded(df: Frame)
    requires Valid(df) && TimeAnalysis(df).Ok?
    requires forall k :: 0 <= k < df.rows && Find(df, "efs").value.cells[k].Some? ==>
      Find(df, "efs").value.cells[k] in {Some(Num(0.0)), Some(Num(1.0))}
    ensures var t := TimeAnalysis(df).value;
      && (t.eventRate.Some? ==> 0.0 <= t.eventRate.value <= 1.0)
      && (t.censoringRate.Some? ==> 0.0 <= t.censoringRate.value <= 1.0)
  {
    var c := Find(df, "efs").value;
    assert ValidColumn(c, df.rows);
    var events := NumericCells(c).value;
    var s := Present(events);
    forall i | 0 <= i < |s| ensures 0.0 <= s[i] <= 1.0 {
      var k :| 0 <= k < |events| && events[k] == Some(s[i]);
    }
    MeanBounds(s, 0.0, 1.0);
    TimeAnalysisErrors(df);
    TimeAnalysisRates(df);
  }
}
