/**
 The input and target modifications applied to the train, validation and test
 splits: dropping identifier columns, keeping plausible passenger counts,
 expanding the pickup timestamp, converting the target from seconds to minutes
 and capping it at 200 minutes.
 */
module ModifyFeatures {
  import Seqs
  import opened Frames

  const TargetColumn := "trip_duration"
  const SecondsPerMinute: real := 60.0
  const TargetCapMinutes: real := 200.0

  const Id := "id"
  const DropoffDatetime := "dropoff_datetime"
  const StoreAndFwdFlag := "store_and_fwd_flag"
  const PassengerCount := "passenger_count"
  const PickupDatetime := "pickup_datetime"

  const PickupHour := "pickup_hour"
  const PickupDate := "pickup_date"
  const PickupMonth := "pickup_month"
  const PickupDay := "pickup_day"
  const IsWeekend := "is_weekend"

  /** The five columns derived from the pickup timestamp, in the order they are added. */
  const DatetimeFeatures := [PickupHour, PickupDate, PickupMonth, PickupDay, IsWeekend]

  /** `list(range(1, 7))`: the passenger counts a trip may have. */
  const AllowedPassengerCounts: set<real> := {1.0, 2.0, 3.0, 4.0, 5.0, 6.0}

  /** Weekday index of Saturday (Monday = 0); Saturday and Sunday are the weekend. */
  const Saturday := 5

  // ---------------------------------------------------------------------------
  // Target column

  /** A duration in seconds as minutes; a missing value stays missing. */
  function ToMinutes(v: Value): Value
  {
    if v.Num? then Num(v.x / SecondsPerMinute) else NaN
  }

  /** `convert_target_to_minutes`: the target column divided by 60, every other
      column and the row count untouched. */
  function ConvertTargetToMinutes(t: Table, target: string): (r: Result<Table>)
    requires WellFormed(t)
    ensures r.Ok? <==> target in t.columns
    ensures r.Err? ==> r.error == MissingColumn(target)
    ensures r.Ok? ==> WellFormed(r.value) && r.value.columns == t.columns
    ensures r.Ok? ==> |r.value.rows| == |t.rows|
    ensures r.Ok? ==> forall i :: 0 <= i < |t.rows| ==>
                        var before := Cell(t.rows[i], target);
                        var after := Cell(r.value.rows[i], target);
                        if before.Num? then after.Num? && after.x * 60.0 == before.x else after == NaN
    ensures r.Ok? ==> forall i, c :: 0 <= i < |t.rows| && c in t.rows[i] && c != target ==>
                        c in r.value.rows[i] && r.value.rows[i][c] == t.rows[i][c]
  {
    if target !in t.columns then Err(MissingColumn(target))
    else Ok(SetColumn(t, target, MapColumn(t, target, ToMinutes)))
  }

  /** The row mask `df[target] <= 200`: false on a missing value. */
  predicate WithinCap(v: Value)
  {
    v.Num? && v.x <= TargetCapMinutes
  }

  function CapMask(target: string): Row -> bool
  {
    (row: Row) => WithinCap(Cell(row, target))
  }

  /** `Series.max()`: the largest number among the values, skipping missing ones;
      `None` (pandas' NaN) when there is no number at all. */
  function MaxNumber(vs: seq<Value>): (m: Option<real>)
    ensures m.None? <==> forall i :: 0 <= i < |vs| ==> !vs[i].Num?
    ensures m.Some? ==> exists i :: 0 <= i < |vs| && vs[i] == Num(m.value)
    ensures m.Some? ==> forall i :: 0 <= i < |vs| && vs[i].Num? ==> vs[i].x <= m.value
  {
    if |vs| == 0 then None
    else
      var rest := MaxNumber(vs[1..]);
      assert forall i :: 1 <= i < |vs| ==> vs[i] == vs[1..][i - 1];
      if !vs[0].Num? then rest
      else match rest
        case None => Some(vs[0].x)
        case Some(m) => Some(if vs[0].x >= m then vs[0].x else m)
  }

  /** After the cap filter, the target column has a maximum exactly when some row
      passed the filter, and that maximum is then within the cap. */
  lemma CappedMaximum(t: Table, target: string)
    requires WellFormed(t)
    ensures var kept := FilterRows(t, CapMask(target));
            && (MaxNumber(Column(kept, target)).Some? <==> exists row :: row in t.rows && WithinCap(Cell(row, target)))
            && (MaxNumber(Column(kept, target)).Some? ==> MaxNumber(Column(kept, target)).value <= TargetCapMinutes)
  {
    var kept := FilterRows(t, CapMask(target));
    CappedColumn(kept.rows, t.rows, Column(kept, target), target);
  }

  /** The target column of the capped rows, stated on the row lists alone. */
  lemma CappedColumn(kept: seq<Row>, rows: seq<Row>, vs: seq<Value>, target: string)
    requires forall row :: row in kept ==> WithinCap(Cell(row, target))
    requires forall row :: row in rows && WithinCap(Cell(row, target)) ==> row in kept
    requires |vs| == |kept|
    requires forall i :: 0 <= i < |kept| ==> vs[i] == Cell(kept[i], target)
    ensures (exists row :: row in rows && WithinCap(Cell(row, target))) ==> MaxNumber(vs).Some?
    ensures MaxNumber(vs).Some? ==> MaxNumber(vs).value <= TargetCapMinutes
  {
    var m := MaxNumber(vs);
    if exists row :: row in rows && WithinCap(Cell(row, target)) {
      var row :| row in rows && WithinCap(Cell(row, target));
      var i :| 0 <= i < |kept| && kept[i] == row;
      assert vs[i].Num?;
    }
    if m.Some? {
      var i :| 0 <= i < |vs| && vs[i] == Num(m.value);
      assert kept[i] in kept;
    }
  }

  /** `drop_above_two_hundred_minutes`: keep the rows whose target is at most 200
      (inclusive), in order, then raise if the kept target's maximum is not at most
      200. That maximum is NaN exactly when no row was kept, so the check fails
      precisely on an empty result. */
  function DropAboveTwoHundredMinutes(t: Table, target: string): (r: Result<Table>)
    requires WellFormed(t)
    ensures r.Ok? <==> target in t.columns && exists row :: row in t.rows && WithinCap(Cell(row, target))
    ensures r.Err? ==> r.error == if target in t.columns then OutliersNotRemoved else MissingColumn(target)
    ensures r.Ok? ==> WellFormed(r.value) && r.value.columns == t.columns
    ensures r.Ok? ==> Seqs.IsSubseq(r.value.rows, t.rows)
    ensures r.Ok? ==> forall row :: row in r.value.rows ==> WithinCap(Cell(row, target))
    ensures r.Ok? ==> forall row :: row in t.rows && WithinCap(Cell(row, target)) ==> row in r.value.rows
    ensures r.Ok? ==> forall row :: row in t.rows ==>
                        multiset(r.value.rows)[row] == if WithinCap(Cell(row, target)) then multiset(t.rows)[row] else 0
    ensures r.Ok? ==> |r.value.rows| > 0
    ensures r.Ok? ==> MaxNumber(Column(r.value, target)).Some?
                      && MaxNumber(Column(r.value, target)).value <= TargetCapMinutes
  {
    if target !in t.columns then Err(MissingColumn(target))
    else
      var kept := FilterRows(t, CapMask(target));
      var maxValue := MaxNumber(Column(kept, target));
      CappedMaximum(t, target);
      if maxValue.Some? && maxValue.value <= TargetCapMinutes then Ok(kept)
      else Err(OutliersNotRemoved)
  }

  /** A duration in seconds that is at most 200 minutes. */
  predicate SecondsWithinCap(v: Value)
  {
    v.Num? && v.x <= TargetCapMinutes * SecondsPerMinute
  }

  function SecondsMask(target: string): Row -> bool
  {
    (row: Row) => SecondsWithinCap(Cell(row, target))
  }

  /** Two equally long row lists whose rows pass two masks at the same positions
      have a row passing the first mask exactly when they have one passing the second. */
  lemma AnyRowTransfer(a: seq<Row>, b: seq<Row>, p: Row -> bool, q: Row -> bool)
    requires |a| == |b|
    requires forall i :: 0 <= i < |a| ==> (p(a[i]) <==> q(b[i]))
    ensures (exists x :: x in a && p(x)) <==> (exists y :: y in b && q(y))
  {
    if exists x :: x in a && p(x) {
      var x :| x in a && p(x);
      var i :| 0 <= i < |a| && a[i] == x;
      assert b[i] in b;
    }
    if exists y :: y in b && q(y) {
      var y :| y in b && q(y);
      var i :| 0 <= i < |b| && b[i] == y;
      assert a[i] in a;
    }
  }

  /** A converted target passes the 200-minute mask exactly when the original
      lasted at most 12000 seconds. */
  lemma ConvertedCellWithinCap(t: Table, target: string, i: int)
    requires WellFormed(t)
    requires target in t.columns
    requires 0 <= i < |t.rows|
    ensures |ConvertTargetToMinutes(t, target).value.rows| == |t.rows|
    ensures WithinCap(Cell(ConvertTargetToMinutes(t, target).value.rows[i], target))
            <==> SecondsWithinCap(Cell(t.rows[i], target))
  {
    var after := Cell(ConvertTargetToMinutes(t, target).value.rows[i], target);
    var before := Cell(t.rows[i], target);
    if before.Num? {
      assert after.Num? && after.x * 60.0 == before.x;
    }
  }

  /** Some converted row passes the 200-minute mask exactly when some original row
      lasted at most 12000 seconds. */
  lemma ConvertedWithinCap(t: Table, target: string)
    requires WellFormed(t)
    requires target in t.columns
    ensures (exists m :: m in ConvertTargetToMinutes(t, target).value.rows && WithinCap(Cell(m, target)))
            <==> (exists row :: row in t.rows && SecondsWithinCap(Cell(row, target)))
  {
    var minutes := ConvertTargetToMinutes(t, target).value.rows;
    forall i | 0 <= i < |t.rows|
      ensures WithinCap(Cell(minutes[i], target)) <==> SecondsWithinCap(Cell(t.rows[i], target))
    {
      ConvertedCellWithinCap(t, target, i);
    }
    AnyRowTransfer(minutes, t.rows, CapMask(target), SecondsMask(target));
  }

  /** One row with its target converted to minutes. */
  function ConvertRow(target: string): Row -> Row
  {
    (row: Row) => row[target := ToMinutes(Cell(row, target))]
  }

  /** Converting the target converts every row on its own. */
  lemma ConvertedRows(t: Table, target: string)
    requires WellFormed(t)
    requires target in t.columns
    ensures ConvertTargetToMinutes(t, target).value.rows == Seqs.Map(t.rows, ConvertRow(target))
  {
    var rows := ConvertTargetToMinutes(t, target).value.rows;
    assert forall i :: 0 <= i < |t.rows| ==> rows[i] == ConvertRow(target)(t.rows[i]);
  }

  /** Capping at 200 minutes after the conversion keeps the same trips as capping
      at 12000 seconds before it: both orders give the same frame. */
  lemma CapCommutesWithConversion(t: Table, target: string)
    requires WellFormed(t)
    requires target in t.columns
    ensures FilterRows(ConvertTargetToMinutes(t, target).value, CapMask(target))
            == ConvertTargetToMinutes(FilterRows(t, SecondsMask(target)), target).value
  {
    var capped := FilterRows(t, SecondsMask(target));
    ConvertedRows(t, target);
    ConvertedRows(capped, target);
    forall row | row in t.rows
      ensures CapMask(target)(ConvertRow(target)(row)) == SecondsMask(target)(row)
    {
      assert Cell(ConvertRow(target)(row), target) == ToMinutes(Cell(row, target));
    }
    Seqs.FilterMap(t.rows, ConvertRow(target), CapMask(target), SecondsMask(target));
  }

  /** `target_modifications` without its plot: minutes, then the 200-minute cap. It
      fails exactly when the target is absent or no trip lasted at most 12000
      seconds; otherwise it is the frame of trips of at most 12000 seconds, in
      order, with their targets in minutes. */
  function TargetModifications(t: Table, target: string): (r: Result<Table>)
    requires WellFormed(t)
    ensures r.Ok? <==> target in t.columns && exists row :: row in t.rows && SecondsWithinCap(Cell(row, target))
    ensures r.Err? ==> r.error == if target in t.columns then OutliersNotRemoved else MissingColumn(target)
    ensures r.Ok? ==> WellFormed(r.value) && r.value.columns == t.columns
    ensures r.Ok? ==> 0 < |r.value.rows| <= |t.rows|
    ensures r.Ok? ==> forall row :: row in r.value.rows ==> WithinCap(Cell(row, target))
    ensures r.Ok? ==> r.value == ConvertTargetToMinutes(FilterRows(t, SecondsMask(target)), target).value
  {
    var minutes :- ConvertTargetToMinutes(t, target);
    ConvertedWithinCap(t, target);
    CapCommutesWithConversion(t, target);
    DropAboveTwoHundredMinutes(minutes, target)
  }

  // ---------------------------------------------------------------------------
  // Input columns

  /** `drop_columns`: frames that still carry `dropoff_datetime` (train and
      validation) lose it together with `id` and `store_and_fwd_flag`; the others
      (test) lose `id` and `store_and_fwd_flag`. Either way the result has none of
      the three, every other column in its original order, and unchanged rows. */
  function DropUnusedColumns(t: Table): (r: Result<Table>)
    requires WellFormed(t)
    ensures r.Ok? <==> Id in t.columns && StoreAndFwdFlag in t.columns
    ensures r.Err? ==> r.error.MissingColumn? && r.error.name in {Id, StoreAndFwdFlag}
                       && r.error.name !in t.columns
    ensures r.Ok? ==> WellFormed(r.value)
    ensures r.Ok? ==> forall c :: c in r.value.columns <==>
                        c in t.columns && c != Id && c != DropoffDatetime && c != StoreAndFwdFlag
    ensures r.Ok? ==> Seqs.IsSubseq(r.value.columns, t.columns)
    ensures r.Ok? ==> |r.value.rows| == |t.rows|
    ensures r.Ok? ==> forall i, c :: 0 <= i < |t.rows| && c in r.value.rows[i] ==>
                        c in t.rows[i] && r.value.rows[i][c] == t.rows[i][c]
  {
    if DropoffDatetime in t.columns then DropColumns(t, [Id, DropoffDatetime, StoreAndFwdFlag])
    else DropColumns(t, [Id, StoreAndFwdFlag])
  }

  /** The row mask `df["passenger_count"].isin(range(1, 7))`. */
  predicate IsAllowedPassengerCount(v: Value)
  {
    v.Num? && v.x in AllowedPassengerCounts
  }

  function PassengerMask(): Row -> bool
  {
    (row: Row) => IsAllowedPassengerCount(Cell(row, PassengerCount))
  }

  /** `remove_passengers`: exactly the rows carrying 1 to 6 passengers, in order. */
  function RemovePassengers(t: Table): (r: Result<Table>)
    requires WellFormed(t)
    ensures r.Ok? <==> PassengerCount in t.columns
    ensures r.Err? ==> r.error == MissingColumn(PassengerCount)
    ensures r.Ok? ==> WellFormed(r.value) && r.value.columns == t.columns
    ensures r.Ok? ==> Seqs.IsSubseq(r.value.rows, t.rows)
    ensures r.Ok? ==> forall row :: row in r.value.rows ==> IsAllowedPassengerCount(Cell(row, PassengerCount))
    ensures r.Ok? ==> forall row :: row in t.rows && IsAllowedPassengerCount(Cell(row, PassengerCount)) ==>
                        row in r.value.rows
    ensures r.Ok? ==> forall row :: row in t.rows ==>
                        multiset(r.value.rows)[row]
                        == if IsAllowedPassengerCount(Cell(row, PassengerCount)) then multiset(t.rows)[row] else 0
  {
    if PassengerCount !in t.columns then Err(MissingColumn(PassengerCount))
    else Ok(FilterRows(t, PassengerMask()))
  }

  /** Removing passengers from an already filtered frame changes nothing. */
  lemma RemovePassengersIdempotent(t: Table)
    requires WellFormed(t)
    requires RemovePassengers(t).Ok?
    ensures RemovePassengers(RemovePassengers(t).value) == RemovePassengers(t)
  {
    Seqs.FilterIdempotent(t.rows, PassengerMask());
  }

  // ---------------------------------------------------------------------------
  // Datetime expansion

  /** `pd.to_datetime` accepts the cell: a timestamp, or a missing value (NaT). */
  predicate ParsesAsDatetime(v: Value)
  {
    v.Stamp? || v.NaN?
  }

  /** The `.dt.hour`, `.dt.day`, `.dt.month` and `.dt.weekday` accessors; NaT gives NaN. */
  function HourOf(v: Value): Value
  {
    if v.Stamp? then Num(v.t.hour as real) else NaN
  }

  function DayOf(v: Value): Value
  {
    if v.Stamp? then Num(v.t.day as real) else NaN
  }

  function MonthOf(v: Value): Value
  {
    if v.Stamp? then Num(v.t.month as real) else NaN
  }

  function WeekdayOf(v: Value): Value
  {
    if v.Stamp? then Num(v.t.weekday as real) else NaN
  }

  /** `(row["pickup_day"] >= 5).astype(int)`: 1 on Saturday and Sunday, 0 otherwise
      (and 0 for a missing weekday, whose comparison is false). */
  function WeekendFlag(v: Value): Value
  {
    if v.Num? && v.x >= Saturday as real then Num(1.0) else Num(0.0)
  }

  /** The frame after the five assignments of `make_datetime_features`, before
      `pickup_datetime` is dropped. `is_weekend` is computed from the freshly
      assigned `pickup_day`. */
  function AddDatetimeColumns(t: Table): Table
    requires WellFormed(t)
  {
    var t1 := SetColumn(t, PickupHour, MapColumn(t, PickupDatetime, HourOf));
    var t2 := SetColumn(t1, PickupDate, MapColumn(t1, PickupDatetime, DayOf));
    var t3 := SetColumn(t2, PickupMonth, MapColumn(t2, PickupDatetime, MonthOf));
    var t4 := SetColumn(t3, PickupDay, MapColumn(t3, PickupDatetime, WeekdayOf));
    SetColumn(t4, IsWeekend, MapColumn(t4, PickupDay, WeekendFlag))
  }

  /** Row `out` is row `inp` with its pickup timestamp decomposed: hour, day of
      month, month and weekday of the timestamp (NaN for NaT), `is_weekend` 1
      exactly when the weekday is Saturday or Sunday, and every other column kept. */
  ghost predicate Decomposed(out: Row, inp: Row)
  {
    var v := Cell(inp, PickupDatetime);
    && Cell(out, PickupHour) == (if v.Stamp? then Num(v.t.hour as real) else NaN)
    && Cell(out, PickupDate) == (if v.Stamp? then Num(v.t.day as real) else NaN)
    && Cell(out, PickupMonth) == (if v.Stamp? then Num(v.t.month as real) else NaN)
    && Cell(out, PickupDay) == (if v.Stamp? then Num(v.t.weekday as real) else NaN)
    && Cell(out, IsWeekend) == (if v.Stamp? && v.t.weekday >= 5 then Num(1.0) else Num(0.0))
    && forall c :: c in inp && c != PickupDatetime && c !in DatetimeFeatures ==> c in out && out[c] == inp[c]
  }

  /** The five derived column names are distinct. */
  lemma DatetimeFeatureNamesDistinct()
    ensures Seqs.Distinct(DatetimeFeatures)
  {
    assert PickupHour[7] != PickupDate[7] && PickupHour[7] != PickupMonth[7] && PickupHour[7] != PickupDay[7];
    assert PickupDate[7] != PickupMonth[7] && PickupDate[9] != PickupDay[9] && PickupMonth[7] != PickupDay[7];
    assert IsWeekend[0] != PickupHour[0];
    assert forall n :: n in DatetimeFeatures[..4] ==> n[0] == 'p';
  }

  /** The five assignments keep the frame well formed and the row count, and add
      exactly the five derived columns. */
  lemma AddDatetimeColumnsShape(t: Table)
    requires WellFormed(t)
    ensures WellFormed(AddDatetimeColumns(t))
    ensures |AddDatetimeColumns(t).rows| == |t.rows|
    ensures forall c :: c in AddDatetimeColumns(t).columns <==> c in t.columns || c in DatetimeFeatures
  {
    var t1 := SetColumn(t, PickupHour, MapColumn(t, PickupDatetime, HourOf));
    var t2 := SetColumn(t1, PickupDate, MapColumn(t1, PickupDatetime, DayOf));
    var t3 := SetColumn(t2, PickupMonth, MapColumn(t2, PickupDatetime, MonthOf));
    var t4 := SetColumn(t3, PickupDay, MapColumn(t3, PickupDatetime, WeekdayOf));
    assert AddDatetimeColumns(t) == SetColumn(t4, IsWeekend, MapColumn(t4, PickupDay, WeekendFlag));
    assert forall c :: c in t4.columns <==>
             c in t.columns || c == PickupHour || c == PickupDate || c == PickupMonth || c == PickupDay;
  }

  /** When none of the five derived columns existed, they are appended in order. */
  lemma AddDatetimeColumnsOrder(t: Table)
    requires WellFormed(t)
    requires forall n :: n in DatetimeFeatures ==> n !in t.columns
    ensures AddDatetimeColumns(t).columns == t.columns + DatetimeFeatures
  {
    DatetimeFeatureNamesDistinct();
    var t1 := SetColumn(t, PickupHour, MapColumn(t, PickupDatetime, HourOf));
    var t2 := SetColumn(t1, PickupDate, MapColumn(t1, PickupDatetime, DayOf));
    var t3 := SetColumn(t2, PickupMonth, MapColumn(t2, PickupDatetime, MonthOf));
    var t4 := SetColumn(t3, PickupDay, MapColumn(t3, PickupDatetime, WeekdayOf));
    assert AddDatetimeColumns(t) == SetColumn(t4, IsWeekend, MapColumn(t4, PickupDay, WeekendFlag));
    assert t2.columns == t.columns + [PickupHour, PickupDate];
    assert t4.columns == t.columns + [PickupHour, PickupDate, PickupMonth, PickupDay];
  }

  /** Row by row, the five assignments decompose the timestamp and keep every
      other cell, the timestamp itself included. */
  lemma AddDatetimeColumnsRow(t: Table, i: int)
    requires WellFormed(t)
    requires 0 <= i < |t.rows|
    ensures |AddDatetimeColumns(t).rows| == |t.rows|
    ensures Decomposed(AddDatetimeColumns(t).rows[i], t.rows[i])
    ensures Cell(AddDatetimeColumns(t).rows[i], PickupDatetime) == Cell(t.rows[i], PickupDatetime)
  {
    var t1 := SetColumn(t, PickupHour, MapColumn(t, PickupDatetime, HourOf));
    var t2 := SetColumn(t1, PickupDate, MapColumn(t1, PickupDatetime, DayOf));
    var t3 := SetColumn(t2, PickupMonth, MapColumn(t2, PickupDatetime, MonthOf));
    var t4 := SetColumn(t3, PickupDay, MapColumn(t3, PickupDatetime, WeekdayOf));
    var t5 := SetColumn(t4, IsWeekend, MapColumn(t4, PickupDay, WeekendFlag));
    assert t5 == AddDatetimeColumns(t);
    var v := Cell(t.rows[i], PickupDatetime);
    assert Cell(t1.rows[i], PickupDatetime) == v;
    assert Cell(t2.rows[i], PickupDatetime) == v;
    assert Cell(t3.rows[i], PickupDatetime) == v;
    assert Cell(t4.rows[i], PickupDatetime) == v;
    assert Cell(t5.rows[i], PickupHour) == HourOf(v);
    assert Cell(t5.rows[i], PickupDate) == DayOf(v);
    assert Cell(t5.rows[i], PickupMonth) == MonthOf(v);
    assert Cell(t4.rows[i], PickupDay) == WeekdayOf(v);
    assert Cell(t5.rows[i], PickupDay) == WeekdayOf(v);
    assert Cell(t5.rows[i], IsWeekend) == WeekendFlag(WeekdayOf(v));
    if v.Stamp? {
      assert (v.t.weekday as real >= Saturday as real) == (v.t.weekday >= 5);
    }
  }

  /** Dropping the timestamp after the five assignments succeeds and leaves the
      derived columns in its place; when none of them existed before, they follow
      the remaining columns in order and the frame gains four columns net. */
  lemma DropTimestampShape(t: Table)
    requires WellFormed(t)
    requires PickupDatetime in t.columns
    ensures DropColumns(AddDatetimeColumns(t), [PickupDatetime]).Ok?
    ensures var r := DropColumns(AddDatetimeColumns(t), [PickupDatetime]).value;
            && WellFormed(r) && |r.rows| == |t.rows|
            && PickupDatetime !in r.columns
            && (forall c :: c in r.columns <==> (c in t.columns && c != PickupDatetime) || c in DatetimeFeatures)
    ensures (forall n :: n in DatetimeFeatures ==> n !in t.columns) ==>
              var r := DropColumns(AddDatetimeColumns(t), [PickupDatetime]).value;
              && r.columns == Without(t.columns, {PickupDatetime}) + DatetimeFeatures
              && |r.columns| == |t.columns| + 4
  {
    AddDatetimeColumnsShape(t);
    assert ColumnSet([PickupDatetime]) == {PickupDatetime};
    if forall n :: n in DatetimeFeatures ==> n !in t.columns {
      AddDatetimeColumnsOrder(t);
      DropTimestampOrder(t.columns);
    }
  }

  /** Removing the timestamp label from the original labels followed by the five
      fresh ones leaves the other labels, then the five, and one label fewer. */
  lemma DropTimestampOrder(cols: seq<string>)
    requires Seqs.Distinct(cols)
    requires PickupDatetime in cols
    requires forall n :: n in DatetimeFeatures ==> n !in cols
    ensures Without(cols + DatetimeFeatures, {PickupDatetime}) == Without(cols, {PickupDatetime}) + DatetimeFeatures
    ensures |Without(cols, {PickupDatetime})| == |cols| - 1
  {
    ColumnNamesDiffer();
    Seqs.FilterAppend(cols, DatetimeFeatures, NotIn({PickupDatetime}));
    Seqs.FilterKeepsAll(DatetimeFeatures, NotIn({PickupDatetime}));
    Seqs.FilterRemovesOne(cols, PickupDatetime, NotIn({PickupDatetime}));
  }

  /** Row by row, the frame after dropping the timestamp holds its decomposition. */
  lemma DropTimestampRow(t: Table, i: int)
    requires WellFormed(t)
    requires PickupDatetime in t.columns
    requires 0 <= i < |t.rows|
    requires DropColumns(AddDatetimeColumns(t), [PickupDatetime]).Ok?
    ensures |DropColumns(AddDatetimeColumns(t), [PickupDatetime]).value.rows| == |t.rows|
    ensures Decomposed(DropColumns(AddDatetimeColumns(t), [PickupDatetime]).value.rows[i], t.rows[i])
  {
    var expanded := AddDatetimeColumns(t);
    AddDatetimeColumnsShape(t);
    AddDatetimeColumnsRow(t, i);
    var out := DropColumns(expanded, [PickupDatetime]).value;
    forall n | n in DatetimeFeatures ensures Cell(out.rows[i], n) == Cell(expanded.rows[i], n) {
      assert n in out.rows[i];
    }
  }

  /** `make_datetime_features`: the pickup timestamp replaced by its five derived
      columns, row count unchanged. */
  function MakeDatetimeFeatures(t: Table): (r: Result<Table>)
    requires WellFormed(t)
    ensures r.Ok? <==> PickupDatetime in t.columns
                       && forall row :: row in t.rows ==> ParsesAsDatetime(Cell(row, PickupDatetime))
    ensures r.Err? ==> r.error == if PickupDatetime in t.columns then UnparsableDatetime(PickupDatetime)
                                  else MissingColumn(PickupDatetime)
    ensures r.Ok? ==> WellFormed(r.value) && |r.value.rows| == |t.rows|
    ensures r.Ok? ==> PickupDatetime !in r.value.columns
    ensures r.Ok? ==> forall c :: c in r.value.columns <==>
                        (c in t.columns && c != PickupDatetime) || c in DatetimeFeatures
    ensures r.Ok? && (forall n :: n in DatetimeFeatures ==> n !in t.columns) ==>
              && r.value.columns == Without(t.columns, {PickupDatetime}) + DatetimeFeatures
              && |r.value.columns| == |t.columns| + 4
    ensures r.Ok? ==> forall i :: 0 <= i < |t.rows| ==> Decomposed(r.value.rows[i], t.rows[i])
  {
    if PickupDatetime !in t.columns then Err(MissingColumn(PickupDatetime))
    else if !(forall row | row in t.rows :: ParsesAsDatetime(Cell(row, PickupDatetime))) then
      Err(UnparsableDatetime(PickupDatetime))
    else
      DropTimestampShape(t);
      assert forall i :: 0 <= i < |t.rows| ==>
               Decomposed(DropColumns(AddDatetimeColumns(t), [PickupDatetime]).value.rows[i], t.rows[i]) by {
        forall i | 0 <= i < |t.rows|
          ensures Decomposed(DropColumns(AddDatetimeColumns(t), [PickupDatetime]).value.rows[i], t.rows[i])
        {
          DropTimestampRow(t, i);
        }
      }
      DropColumns(AddDatetimeColumns(t), [PickupDatetime])
  }

  /** A pickup on Saturday 2016-01-02 at 23:00 becomes hour 23, day 2, month 1,
      weekday 5 and a weekend flag of 1. */
  lemma SaturdayPickup()
    ensures var t := Table([PickupDatetime], [map[PickupDatetime := Stamp(Timestamp(2016, 1, 2, 23, 5))]]);
            && MakeDatetimeFeatures(t).Ok?
            && |MakeDatetimeFeatures(t).value.rows| == 1
            && var out := MakeDatetimeFeatures(t).value.rows[0];
               && Cell(out, PickupHour) == Num(23.0)
               && Cell(out, PickupDate) == Num(2.0)
               && Cell(out, PickupMonth) == Num(1.0)
               && Cell(out, PickupDay) == Num(5.0)
               && Cell(out, IsWeekend) == Num(1.0)
  {
    var t := Table([PickupDatetime], [map[PickupDatetime := Stamp(Timestamp(2016, 1, 2, 23, 5))]]);
    assert WellFormed(t);
    assert Decomposed(MakeDatetimeFeatures(t).value.rows[0], t.rows[0]);
  }

  // ---------------------------------------------------------------------------
  // Composition

  /** The labels `drop_columns` may remove. */
  const UnusedColumns: set<string> := {Id, DropoffDatetime, StoreAndFwdFlag}

  /** A row without the labels `drop_columns` may remove. */
  function StripUnused(): Row -> Row
  {
    (row: Row) => row - UnusedColumns
  }

  /** The rows `input_modifications` keeps, in order, before the timestamp is
      expanded: those with 1 to 6 passengers, without the unused labels. */
  function KeptInputRows(t: Table): seq<Row>
  {
    Seqs.Map(Seqs.Filter(t.rows, PassengerMask()), StripUnused())
  }

  /** The labels the stage adds, filters on or keeps are none of the labels it drops. */
  lemma ColumnNamesDiffer()
    ensures PassengerCount !in DatetimeFeatures && PassengerCount != PickupDatetime
    ensures forall n :: n in DatetimeFeatures ==>
              n != Id && n != DropoffDatetime && n != StoreAndFwdFlag && n != PickupDatetime
    ensures PassengerCount !in UnusedColumns && PickupDatetime !in UnusedColumns
    ensures TargetColumn !in UnusedColumns && TargetColumn != PickupDatetime && TargetColumn !in DatetimeFeatures
  {
    assert PassengerCount[1] != PickupDatetime[1];
    assert TargetColumn[0] == 't';
  }

  /** Either branch of `drop_columns` removes the unused labels from every row. */
  lemma DroppedRows(t: Table)
    requires WellFormed(t)
    requires DropUnusedColumns(t).Ok?
    ensures DropUnusedColumns(t).value.rows == Seqs.Map(t.rows, StripUnused())
  {
    if DropoffDatetime in t.columns {
      DroppedRowsWithDropoff(t);
    } else {
      DroppedRowsWithoutDropoff(t);
    }
  }

  lemma DroppedRowsWithDropoff(t: Table)
    requires WellFormed(t)
    requires DropoffDatetime in t.columns
    requires DropUnusedColumns(t).Ok?
    ensures DropUnusedColumns(t).value.rows == Seqs.Map(t.rows, StripUnused())
  {
    assert ColumnSet([Id, DropoffDatetime, StoreAndFwdFlag]) == UnusedColumns;
  }

  lemma DroppedRowsWithoutDropoff(t: Table)
    requires WellFormed(t)
    requires DropoffDatetime !in t.columns
    requires DropUnusedColumns(t).Ok?
    ensures DropUnusedColumns(t).value.rows == Seqs.Map(t.rows, StripUnused())
  {
    var gone := ColumnSet([Id, StoreAndFwdFlag]);
    assert gone == {Id, StoreAndFwdFlag};
    assert UnusedColumns == gone + {DropoffDatetime};
    var rows := DropUnusedColumns(t).value.rows;
    forall i | 0 <= i < |t.rows| ensures rows[i] == StripUnused()(t.rows[i]) {
      RemoveAbsentLabel(t.rows[i], gone, DropoffDatetime);
    }
  }

  /** Removing a label the row does not have changes nothing. */
  lemma RemoveAbsentLabel(row: Row, gone: set<string>, name: string)
    requires name !in row
    ensures row - gone == row - (gone + {name})
  {
  }

  /** Dropping columns and then removing passengers leaves exactly the kept input rows. */
  lemma PassengerRows(t: Table)
    requires WellFormed(t)
    requires DropUnusedColumns(t).Ok?
    requires PassengerCount in t.columns
    ensures RemovePassengers(DropUnusedColumns(t).value).Ok?
    ensures RemovePassengers(DropUnusedColumns(t).value).value.rows == KeptInputRows(t)
  {
    ColumnNamesDiffer();
    var dropped := DropUnusedColumns(t).value;
    DroppedRows(t);
    forall row | row in t.rows ensures PassengerMask()(StripUnused()(row)) == PassengerMask()(row) {
      assert Cell(StripUnused()(row), PassengerCount) == Cell(row, PassengerCount);
    }
    Seqs.FilterMap(t.rows, StripUnused(), PassengerMask(), PassengerMask());
    assert RemovePassengers(dropped).value.rows == Seqs.Filter(dropped.rows, PassengerMask());
  }

  /** Every kept input row has a parseable pickup cell exactly when every input row
      with 1 to 6 passengers has one. */
  lemma KeptRowsParse(t: Table)
    ensures (forall row :: row in KeptInputRows(t) ==> ParsesAsDatetime(Cell(row, PickupDatetime)))
            <==> (forall row :: row in t.rows && IsAllowedPassengerCount(Cell(row, PassengerCount)) ==>
                    ParsesAsDatetime(Cell(row, PickupDatetime)))
  {
    ColumnNamesDiffer();
    var f := Seqs.Filter(t.rows, PassengerMask());
    var k := KeptInputRows(t);
    if forall row :: row in k ==> ParsesAsDatetime(Cell(row, PickupDatetime)) {
      forall row | row in t.rows && IsAllowedPassengerCount(Cell(row, PassengerCount))
        ensures ParsesAsDatetime(Cell(row, PickupDatetime))
      {
        assert PassengerMask()(row);
        var j :| 0 <= j < |f| && f[j] == row;
        assert k[j] in k;
        assert Cell(k[j], PickupDatetime) == Cell(row, PickupDatetime);
      }
    }
    if forall row :: row in t.rows && IsAllowedPassengerCount(Cell(row, PassengerCount)) ==>
                       ParsesAsDatetime(Cell(row, PickupDatetime)) {
      forall y | y in k ensures ParsesAsDatetime(Cell(y, PickupDatetime)) {
        var j :| 0 <= j < |k| && k[j] == y;
        assert f[j] in f;
        assert Cell(y, PickupDatetime) == Cell(f[j], PickupDatetime);
      }
    }
  }

  /** Expanding the timestamp leaves the passenger counts where they were. */
  lemma DatetimeKeepsPassengers(t: Table)
    requires WellFormed(t)
    requires forall row :: row in t.rows ==> IsAllowedPassengerCount(Cell(row, PassengerCount))
    ensures MakeDatetimeFeatures(t).Ok? ==>
              forall i :: 0 <= i < |MakeDatetimeFeatures(t).value.rows| ==>
                IsAllowedPassengerCount(Cell(MakeDatetimeFeatures(t).value.rows[i], PassengerCount))
  {
    var r := MakeDatetimeFeatures(t);
    ColumnNamesDiffer();
    if r.Ok? {
      forall i | 0 <= i < |r.value.rows|
        ensures IsAllowedPassengerCount(Cell(r.value.rows[i], PassengerCount))
      {
        assert Decomposed(r.value.rows[i], t.rows[i]);
        assert t.rows[i] in t.rows;
      }
    }
  }

  /** `input_modifications`: drop columns, remove passengers, expand the timestamp.
      It succeeds exactly when the four columns it reads are present and every trip
      with 1 to 6 passengers has a parseable pickup time; row `i` of the result is
      the decomposition of the `i`-th such trip without the unused labels. */
  function InputModifications(t: Table): (r: Result<Table>)
    requires WellFormed(t)
    ensures r.Ok? <==>
              && Id in t.columns && StoreAndFwdFlag in t.columns
              && PassengerCount in t.columns && PickupDatetime in t.columns
              && forall row :: row in t.rows && IsAllowedPassengerCount(Cell(row, PassengerCount)) ==>
                   ParsesAsDatetime(Cell(row, PickupDatetime))
    ensures r.Err? ==>
              || (r.error.MissingColumn? && r.error.name in [Id, StoreAndFwdFlag, PassengerCount, PickupDatetime]
                  && r.error.name !in t.columns)
              || r.error == UnparsableDatetime(PickupDatetime)
    ensures r.Ok? ==> WellFormed(r.value)
    ensures r.Ok? ==> |r.value.rows| == |KeptInputRows(t)| <= |t.rows|
    ensures r.Ok? ==> forall c :: c in r.value.columns <==>
                        (c in t.columns && c !in UnusedColumns && c != PickupDatetime) || c in DatetimeFeatures
    ensures r.Ok? ==> forall i :: 0 <= i < |r.value.rows| ==> Decomposed(r.value.rows[i], KeptInputRows(t)[i])
    ensures r.Ok? ==> forall i :: 0 <= i < |r.value.rows| ==>
                        IsAllowedPassengerCount(Cell(r.value.rows[i], PassengerCount))
  {
    ColumnNamesDiffer();
    var dropped :- DropUnusedColumns(t);
    var kept :- RemovePassengers(dropped);
    PassengerRows(t);
    KeptRowsParse(t);
    DatetimeKeepsPassengers(kept);
    MakeDatetimeFeatures(kept)
  }

  /** Which branch of `main` a file takes: only `train.csv` and `val.csv` carry the target. */
  datatype Mode = Labeled | Unlabeled

  function ModeOf(filename: string): Mode
  {
    if filename == "train.csv" || filename == "val.csv" then Labeled else Unlabeled
  }

  /** A decomposed row keeps the target of the input row it came from. */
  lemma DecomposedTarget(out: Row, orig: Row)
    requires Decomposed(out, orig - UnusedColumns)
    requires TargetColumn !in orig ==> TargetColumn !in out
    ensures Cell(out, TargetColumn) == Cell(orig, TargetColumn)
  {
    ColumnNamesDiffer();
  }

  /** A frame whose rows are the decomposed kept input rows has a row of at most
      12000 seconds exactly when some input trip with 1 to 6 passengers has one. */
  lemma KeptTargets(out: Table, t: Table)
    requires WellFormed(out) && WellFormed(t)
    requires |out.rows| == |KeptInputRows(t)|
    requires forall i :: 0 <= i < |out.rows| ==> Decomposed(out.rows[i], KeptInputRows(t)[i])
    requires forall c :: c in out.columns <==>
               (c in t.columns && c !in UnusedColumns && c != PickupDatetime) || c in DatetimeFeatures
    ensures TargetColumn in out.columns <==> TargetColumn in t.columns
    ensures (exists row :: row in out.rows && SecondsWithinCap(Cell(row, TargetColumn)))
            <==> (exists row :: row in t.rows && IsAllowedPassengerCount(Cell(row, PassengerCount))
                                && SecondsWithinCap(Cell(row, TargetColumn)))
  {
    ColumnNamesDiffer();
    var f := Seqs.Filter(t.rows, PassengerMask());
    var k := KeptInputRows(t);
    forall i | 0 <= i < |out.rows|
      ensures SecondsMask(TargetColumn)(out.rows[i]) <==> SecondsMask(TargetColumn)(f[i])
    {
      assert k[i] == f[i] - UnusedColumns;
      assert f[i] in t.rows;
      if TargetColumn !in f[i] {
        assert TargetColumn !in out.columns;
      }
      DecomposedTarget(out.rows[i], f[i]);
    }
    AnyRowTransfer(out.rows, f, SecondsMask(TargetColumn), SecondsMask(TargetColumn));
  }

  /** `main` without the file reading: the input modifications, followed by the
      target modifications for the train and validation files only. */
  function Main(t: Table, filename: string): (r: Result<Table>)
    requires WellFormed(t)
    ensures r.Ok? ==> InputModifications(t).Ok?
    ensures filename != "train.csv" && filename != "val.csv" ==> r == InputModifications(t)
    ensures r.Ok? ==> WellFormed(r.value) && |r.value.rows| <= |t.rows|
    ensures filename == "train.csv" || filename == "val.csv" ==>
              (r.Ok? <==>
                 && InputModifications(t).Ok?
                 && TargetColumn in t.columns
                 && exists row :: row in t.rows && IsAllowedPassengerCount(Cell(row, PassengerCount))
                                   && SecondsWithinCap(Cell(row, TargetColumn)))
    ensures r.Ok? && (filename == "train.csv" || filename == "val.csv") ==>
              && TargetColumn in r.value.columns
              && |r.value.rows| > 0
              && (forall row :: row in r.value.rows ==> WithinCap(Cell(row, TargetColumn)))
              && r.value == ConvertTargetToMinutes(FilterRows(InputModifications(t).value, SecondsMask(TargetColumn)),
                                                   TargetColumn).value
  {
    var modified :- InputModifications(t);
    KeptTargets(modified, t);
    match ModeOf(filename)
    case Labeled => TargetModifications(modified, TargetColumn)
    case Unlabeled => Ok(modified)
  }
}
