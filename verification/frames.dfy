/**
 The data model shared by the feature-engineering stage: a data frame as an
 ordered list of column names and a list of rows, each row a map from column
 name to cell. The pandas operations the stage uses (boolean row masks,
 assigning a column, dropping columns) are defined here once.
 */
module Frames {
  import Seqs

  /** A pickup timestamp, already split into the fields the `.dt` accessors read.
      `weekday` counts from Monday = 0. */
  datatype Timestamp = Timestamp(year: int, month: int, day: int, hour: int, weekday: int)

  /** A cell. `NaN` stands for pandas' missing value (NaN / NaT): every
      comparison against it is false. */
  datatype Value = Num(x: real) | NaN | Text(s: string) | Stamp(t: Timestamp)

  type Row = map<string, Value>

  datatype Table = Table(columns: seq<string>, rows: seq<Row>)

  /** The exceptions the stage can raise; each aborts the script. */
  datatype Error =
    | MissingColumn(name: string)      // pandas KeyError on a column label
    | MissingPercentile(index: nat)    // IndexError on the percentile list
    | UnparsableDatetime(name: string) // pd.to_datetime cannot parse a cell
    | OutliersNotRemoved               // the ValueError of the target-cap check

  datatype Option<T> = None | Some(value: T)

  datatype Result<T> = Ok(value: T) | Err(error: Error) {
    predicate IsFailure() {
      Err?
    }

    function PropagateFailure<U>(): Result<U>
      requires Err?
    {
      Err(error)
    }

    function Extract(): T
      requires Ok?
    {
      value
    }
  }

  function ColumnSet(cols: seq<string>): (s: set<string>)
    ensures forall c :: c in s <==> c in cols
  {
    set c | c in cols
  }

  /** What every pandas frame satisfies here: column labels are unique and every
      row has a cell for exactly the frame's columns. */
  ghost predicate WellFormed(t: Table)
  {
    && Seqs.Distinct(t.columns)
    && forall i :: 0 <= i < |t.rows| ==> t.rows[i].Keys == ColumnSet(t.columns)
  }

  /** The cell of row `r` in column `c`; on a well-formed frame `c` is always a column
      when this is used, and the `NaN` default is never reached. */
  function Cell(r: Row, c: string): Value
  {
    if c in r then r[c] else NaN
  }

  /** The values of column `c`, top to bottom (`df[c]`). */
  function Column(t: Table, c: string): (vs: seq<Value>)
    ensures |vs| == |t.rows|
    ensures forall i :: 0 <= i < |t.rows| ==> vs[i] == Cell(t.rows[i], c)
  {
    seq(|t.rows|, i requires 0 <= i < |t.rows| => Cell(t.rows[i], c))
  }

  /** The position of the first label of `names` that is not a column, or
      `|names|` when all are columns. */
  function FirstMissing(names: seq<string>, cols: seq<string>): (k: nat)
    ensures k <= |names|
    ensures k < |names| ==> names[k] !in cols
    ensures forall j :: 0 <= j < k ==> names[j] in cols
  {
    if |names| == 0 then 0
    else if names[0] !in cols then 0
    else 1 + FirstMissing(names[1..], cols)
  }

  function NotIn(names: set<string>): string -> bool
  {
    (c: string) => c !in names
  }

  /** The labels of `cols` that are not in `names`, in their original order. */
  function Without(cols: seq<string>, names: set<string>): (r: seq<string>)
    ensures forall c :: c in r <==> c in cols && c !in names
  {
    Seqs.Filter(cols, NotIn(names))
  }

  /** `df.loc[mask, :]`: keep the rows the mask accepts, in order, with the same columns. */
  function FilterRows(t: Table, keep: Row -> bool): (r: Table)
    requires WellFormed(t)
    ensures WellFormed(r)
    ensures r.columns == t.columns
    ensures |r.rows| <= |t.rows|
    ensures Seqs.IsSubseq(r.rows, t.rows)
    ensures forall row :: row in r.rows ==> row in t.rows && keep(row)
    ensures forall row :: row in t.rows && keep(row) ==> row in r.rows
    ensures forall row :: row in t.rows ==>
              multiset(r.rows)[row] == if keep(row) then multiset(t.rows)[row] else 0
  {
    Seqs.FilterIsSubseq(t.rows, keep);
    Seqs.FilterCount(t.rows, keep);
    var r := Table(t.columns, Seqs.Filter(t.rows, keep));
    assert forall i :: 0 <= i < |r.rows| ==> r.rows[i] in t.rows;
    r
  }

  /** `df[c].map(f)`: the series obtained by applying `f` to every cell of column `c`. */
  function MapColumn(t: Table, c: string, f: Value -> Value): (vs: seq<Value>)
    ensures |vs| == |t.rows|
    ensures forall i :: 0 <= i < |t.rows| ==> vs[i] == f(Cell(t.rows[i], c))
  {
    seq(|t.rows|, i requires 0 <= i < |t.rows| => f(Cell(t.rows[i], c)))
  }

  /** `df[name] = values` for a series aligned with the rows: an existing column is
      overwritten in place, a new one is appended after the last column. */
  function SetColumn(t: Table, name: string, values: seq<Value>): (r: Table)
    requires WellFormed(t)
    requires |values| == |t.rows|
    ensures WellFormed(r)
    ensures |r.rows| == |t.rows|
    ensures name in t.columns ==> r.columns == t.columns
    ensures name !in t.columns ==> r.columns == t.columns + [name]
    ensures forall i :: 0 <= i < |t.rows| ==> name in r.rows[i] && r.rows[i][name] == values[i]
    ensures forall i, c :: 0 <= i < |t.rows| && c in t.rows[i] && c != name ==>
              c in r.rows[i] && r.rows[i][c] == t.rows[i][c]
  {
    Table(if name in t.columns then t.columns else t.columns + [name],
          seq(|t.rows|, i requires 0 <= i < |t.rows| => t.rows[i][name := values[i]]))
  }

  /** `df.drop(columns=names)`: fails on the first label that is not a column;
      otherwise removes those columns from the header and from every row. */
  function DropColumns(t: Table, names: seq<string>): (r: Result<Table>)
    requires WellFormed(t)
    ensures r.Ok? <==> forall n :: n in names ==> n in t.columns
    ensures r.Err? ==> r.error.MissingColumn? && r.error.name in names && r.error.name !in t.columns
    ensures r.Ok? ==> WellFormed(r.value)
    ensures r.Ok? ==> r.value.columns == Without(t.columns, ColumnSet(names))
    ensures r.Ok? ==> forall c :: c in r.value.columns <==> c in t.columns && c !in names
    ensures r.Ok? ==> Seqs.IsSubseq(r.value.columns, t.columns)
    ensures r.Ok? ==> |r.value.rows| == |t.rows|
    ensures r.Ok? ==> forall i, c :: 0 <= i < |t.rows| && c in r.value.rows[i] ==>
                        c in t.rows[i] && r.value.rows[i][c] == t.rows[i][c]
  {
    var k := FirstMissing(names, t.columns);
    if k < |names| then Err(MissingColumn(names[k]))
    else
      var gone := ColumnSet(names);
      Seqs.FilterIsSubseq(t.columns, NotIn(gone));
      Seqs.FilterDistinct(t.columns, NotIn(gone));
      Ok(Table(Without(t.columns, gone),
               seq(|t.rows|, i requires 0 <= i < |t.rows| => t.rows[i] - gone)))
  }
}
