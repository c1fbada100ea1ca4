/**
 The percentile outlier remover (`OutliersRemover`) as two pure phases: `Fit`
 turns a reference frame into an immutable list of per-column bounds, and
 `Transform` filters any frame with those bounds. Because the bounds are a value
 handed to `Transform`, there is no "transform before fit" state to model.
 */
module OutliersRemoval {
  import Seqs
  import opened Frames

  /** One entry of the fitted `quantiles_` list, paired with the column of
      `col_subset` it was computed for. */
  datatype ColumnBound = ColumnBound(column: string, lower: real, upper: real)

  /** pandas `Series.quantile(q)` over a column's values, kept abstract. */
  type QuantileFn = (seq<Value>, real) -> real

  /** The inclusive range test of one filter step: the cell is a number and
      `lower <= cell <= upper`. A missing value fails both comparisons. */
  predicate WithinBound(row: Row, b: ColumnBound)
  {
    b.column in row && row[b.column].Num? && b.lower <= row[b.column].x <= b.upper
  }

  /** The row passes every fitted bound. */
  predicate WithinAll(row: Row, bounds: seq<ColumnBound>)
  {
    forall i :: 0 <= i < |bounds| ==> WithinBound(row, bounds[i])
  }

  function BoundMask(b: ColumnBound): Row -> bool
  {
    (row: Row) => WithinBound(row, b)
  }

  function AllBoundsMask(bounds: seq<ColumnBound>): Row -> bool
  {
    (row: Row) => WithinAll(row, bounds)
  }

  function BoundColumns(bounds: seq<ColumnBound>): (cs: seq<string>)
    ensures |cs| == |bounds|
    ensures forall i :: 0 <= i < |bounds| ==> cs[i] == bounds[i].column
  {
    seq(|bounds|, i requires 0 <= i < |bounds| => bounds[i].column)
  }

  /** `fit`: for each column of `colSubset`, in order, the quantiles at
      `percentiles[0]` and `percentiles[1]` of that column. The first column that
      is absent raises a KeyError; with fewer than two percentiles, reading the
      missing percentile raises an IndexError; with no columns nothing is read. */
  function Fit(t: Table, percentiles: seq<real>, colSubset: seq<string>, quantile: QuantileFn)
    : (r: Result<seq<ColumnBound>>)
    ensures r.Ok? <==>
              && (|colSubset| == 0 || |percentiles| >= 2)
              && forall c :: c in colSubset ==> c in t.columns
    ensures r.Err? ==>
              || (r.error.MissingColumn? && r.error.name in colSubset && r.error.name !in t.columns)
              || (r.error.MissingPercentile? && r.error.index == |percentiles| < 2)
    ensures r.Ok? ==> |r.value| == |colSubset|
    ensures r.Ok? && |colSubset| > 0 ==>
              forall i :: 0 <= i < |colSubset| ==>
                r.value[i] == ColumnBound(colSubset[i],
                                          quantile(Column(t, colSubset[i]), percentiles[0]),
                                          quantile(Column(t, colSubset[i]), percentiles[1]))
    decreases |colSubset|
  {
    if |colSubset| == 0 then Ok([])
    else
      var col := colSubset[0];
      if col !in t.columns then Err(MissingColumn(col))
      else if |percentiles| < 2 then Err(MissingPercentile(|percentiles|))
      else
        var values := Column(t, col);
        var rest :- Fit(t, percentiles, colSubset[1..], quantile);
        Ok([ColumnBound(col, quantile(values, percentiles[0]), quantile(values, percentiles[1]))] + rest)
  }

  /** The loop body of `transform`, run once per fitted column: each step filters
      the rows that survived the previous steps. */
  function Steps(rows: seq<Row>, bounds: seq<ColumnBound>): seq<Row>
    decreases |bounds|
  {
    if |bounds| == 0 then rows
    else Steps(Seqs.Filter(rows, BoundMask(bounds[0])), bounds[1..])
  }

  /** Filtering column by column is one filter by the conjunction of all bounds
      over the original rows. */
  lemma {:induction false} StepsIsConjunction(rows: seq<Row>, bounds: seq<ColumnBound>)
    ensures Steps(rows, bounds) == Seqs.Filter(rows, AllBoundsMask(bounds))
    decreases |bounds|
  {
    if |bounds| == 0 {
      Seqs.FilterKeepsAll(rows, AllBoundsMask(bounds));
    } else {
      var first := BoundMask(bounds[0]);
      var rest := AllBoundsMask(bounds[1..]);
      var kept := Seqs.Filter(rows, first);
      StepsIsConjunction(kept, bounds[1..]);
      Seqs.FilterFusion(rows, first, rest);
      forall row: Row | row in rows
        ensures Seqs.And(first, rest)(row) == AllBoundsMask(bounds)(row)
      {
        if first(row) && rest(row) {
          forall i | 0 <= i < |bounds| ensures WithinBound(row, bounds[i]) {
            if i > 0 {
              assert bounds[1..][i - 1] == bounds[i];
            }
          }
        }
        if WithinAll(row, bounds) {
          forall i | 0 <= i < |bounds[1..]| ensures WithinBound(row, bounds[1..][i]) {
            assert bounds[1..][i] == bounds[i + 1];
          }
        }
      }
      Seqs.FilterCongruent(rows, Seqs.And(first, rest), AllBoundsMask(bounds));
    }
  }

  /** `transform`: a copy of the frame filtered by every fitted bound in turn. A
      fitted column that the frame lacks raises a KeyError. */
  function Transform(t: Table, bounds: seq<ColumnBound>): (r: Result<Table>)
    requires WellFormed(t)
    ensures r.Ok? <==> forall i :: 0 <= i < |bounds| ==> bounds[i].column in t.columns
    ensures r.Err? ==>
              && r.error.MissingColumn?
              && r.error.name !in t.columns
              && exists i :: 0 <= i < |bounds| && bounds[i].column == r.error.name
    ensures r.Ok? ==> WellFormed(r.value) && r.value.columns == t.columns
    ensures r.Ok? ==> |r.value.rows| <= |t.rows| && Seqs.IsSubseq(r.value.rows, t.rows)
    ensures r.Ok? ==> forall row :: row in r.value.rows ==> WithinAll(row, bounds)
    ensures r.Ok? ==> forall row :: row in t.rows && WithinAll(row, bounds) ==> row in r.value.rows
    ensures r.Ok? ==> forall row :: row in t.rows ==>
                        multiset(r.value.rows)[row] == if WithinAll(row, bounds) then multiset(t.rows)[row] else 0
    ensures r.Ok? ==> r.value.rows == Seqs.Filter(t.rows, AllBoundsMask(bounds))
  {
    var k := FirstMissing(BoundColumns(bounds), t.columns);
    if k < |bounds| then Err(MissingColumn(bounds[k].column))
    else
      StepsIsConjunction(t.rows, bounds);
      assert Table(t.columns, Steps(t.rows, bounds)) == FilterRows(t, AllBoundsMask(bounds));
      Ok(Table(t.columns, Steps(t.rows, bounds)))
  }

  /** Transforming an already transformed frame with the same bounds changes nothing. */
  lemma TransformIdempotent(t: Table, bounds: seq<ColumnBound>)
    requires WellFormed(t)
    requires Transform(t, bounds).Ok?
    ensures Transform(Transform(t, bounds).value, bounds) == Transform(t, bounds)
  {
    var once := Transform(t, bounds).value;
    StepsIsConjunction(t.rows, bounds);
    StepsIsConjunction(once.rows, bounds);
    Seqs.FilterIdempotent(t.rows, AllBoundsMask(bounds));
  }

  /** Fitting on a frame and transforming that same frame cannot fail, and every
      surviving row lies, column by column, between the two fitted quantiles. */
  lemma FitThenTransform(t: Table, percentiles: seq<real>, colSubset: seq<string>, quantile: QuantileFn)
    requires WellFormed(t)
    requires Fit(t, percentiles, colSubset, quantile).Ok?
    ensures Transform(t, Fit(t, percentiles, colSubset, quantile).value).Ok?
    ensures forall row: Row, i ::
              row in Transform(t, Fit(t, percentiles, colSubset, quantile).value).value.rows
              && 0 <= i < |colSubset| ==>
                && colSubset[i] in row
                && row[colSubset[i]].Num?
                && quantile(Column(t, colSubset[i]), percentiles[0]) <= row[colSubset[i]].x
                && row[colSubset[i]].x <= quantile(Column(t, colSubset[i]), percentiles[1])
  {
    var bounds := Fit(t, percentiles, colSubset, quantile).value;
    assert forall i :: 0 <= i < |bounds| ==> bounds[i].column == colSubset[i];
    var out := Transform(t, bounds).value;
    forall row: Row, i | row in out.rows && 0 <= i < |colSubset|
      ensures colSubset[i] in row && row[colSubset[i]].Num?
      ensures quantile(Column(t, colSubset[i]), percentiles[0]) <= row[colSubset[i]].x
      ensures row[colSubset[i]].x <= quantile(Column(t, colSubset[i]), percentiles[1])
    {
      assert WithinBound(row, bounds[i]);
    }
  }
}
