/** The dataset the analyses read: an ordered collection of named columns of
    equal length, each cell either a value or missing (pandas NaN/None). */
module Table {
  import opened Wrappers
  import opened Collections

  datatype Value = Num(x: real) | Text(s: string)

  /** A cell; `None` is a missing value. */
  type Cell = Option<Value>

  /** The pandas dtype families that matter here: numeric and boolean columns
      hold numbers, object and category columns hold labels. */
  datatype DType = Numeric | Boolean | Object | Category

  datatype Column = Column(name: string, dtype: DType, cells: seq<Cell>)

  datatype Frame = Frame(columns: seq<Column>, rows: nat)

  /** The exceptions the analysis code can raise: `df[name]` on an absent
      column, arithmetic on a non-numeric column, and scipy's chi-square test
      on a table without observations. */
  datatype Error = KeyError(key: string) | NotNumeric(column: string) | EmptyTable

  predicate IsNumeric(d: DType) {
    d == Numeric || d == Boolean
  }

  predicate ValidColumn(c: Column, rows: nat) {
    && |c.cells| == rows
    && (IsNumeric(c.dtype) ==> forall k :: 0 <= k < rows && c.cells[k].Some? ==> c.cells[k].value.Num?)
  }

  function Names(df: Frame): (r: seq<string>)
    ensures |r| == |df.columns|
    ensures forall i :: 0 <= i < |r| ==> r[i] == df.columns[i].name
  {
    seq(|df.columns|, i requires 0 <= i < |df.columns| => df.columns[i].name)
  }

  /** Every column has one cell per row, numeric columns hold numbers, and
      column names are unique (so `df[name]` is a single column). */
  predicate Valid(df: Frame) {
    && (forall i :: 0 <= i < |df.columns| ==> ValidColumn(df.columns[i], df.rows))
    && Distinct(Names(df))
  }

  /** `df[name]`: the column with that name, or a KeyError. */
  function Find(df: Frame, name: string): (r: Result<Column, Error>)
    ensures r.Ok? <==> name in Names(df)
    ensures r.Ok? ==> r.value in df.columns && r.value.name == name
    ensures r.Err? ==> r.error == KeyError(name)
  {
    FindIn(df.columns, name)
  }

  function FindIn(cols: seq<Column>, name: string): (r: Result<Column, Error>)
    ensures r.Ok? <==> exists i :: 0 <= i < |cols| && cols[i].name == name
    ensures r.Ok? ==> r.value in cols && r.value.name == name
    ensures r.Err? ==> r.error == KeyError(name)
  {
    if |cols| == 0 then Err(KeyError(name))
    else if cols[0].name == name then Ok(cols[0])
    else
      var r := FindIn(cols[1..], name);
      assert forall i :: 0 < i < |cols| ==> cols[i] == cols[1..][i - 1];
      r
  }

  /** `isnull()` of a column: true exactly at the missing cells. */
  function Indicator(cells: seq<Cell>): (r: seq<bool>)
    ensures |r| == |cells|
    ensures forall k :: 0 <= k < |cells| ==> (r[k] <==> cells[k].None?)
  {
    seq(|cells|, k requires 0 <= k < |cells| => cells[k].None?)
  }

  function AsReal(c: Cell): Option<real> {
    match c
    case Some(Num(x)) => Some(x)
    case _ => None
  }

  /** The values of a numeric column as reals, or the TypeError that the
      mean or rank test raises on a label column. */
  function NumericCells(c: Column): (r: Result<seq<Option<real>>, Error>)
    ensures r.Err? <==> !IsNumeric(c.dtype)
    ensures r.Err? ==> r.error == NotNumeric(c.name)
    ensures r.Ok? ==> |r.value| == |c.cells|
    ensures r.Ok? && ValidColumn(c, |c.cells|) ==>
      forall k :: 0 <= k < |c.cells| ==>
        && (r.value[k].None? <==> c.cells[k].None?)
        && (r.value[k].Some? ==> c.cells[k] == Some(Num(r.value[k].value)))
  {
    if !IsNumeric(c.dtype) then Err(NotNumeric(c.name))
    else Ok(seq(|c.cells|, k requires 0 <= k < |c.cells| => AsReal(c.cells[k])))
  }

  predicate HasMissing(c: Column) {
    MissingCount(c.cells) > 0
  }

  /** The columns with at least one missing value, in column order. */
  function ColumnsWithMissing(cols: seq<Column>): (r: seq<Column>)
    ensures forall i :: 0 <= i < |r| ==> r[i] in cols && None in r[i].cells
    ensures forall i :: 0 <= i < |cols| && None in cols[i].cells ==> cols[i] in r
    ensures Picks(cols, FilterIndices(cols, HasMissing), r)
  {
    var r := Filter(cols, HasMissing);
    FilterPicks(cols, HasMissing);
    forall c | c in cols ensures HasMissing(c) <==> None in c.cells {
      MissingCountSplit(c.cells);
    }
    r
  }
}
