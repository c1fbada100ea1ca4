/**
 The distance feature builder (`implement_distances`): a copy of the frame with
 one column per distance function appended, each computed element-wise from the
 pickup and dropoff coordinates. The distance formulas themselves are kept
 abstract, so what is proved is the shape of the result and which values land
 where.
 */
module BuildFeatures {
  import Seqs
  import opened Frames

  /** A distance between two points, `(lat1, lon1, lat2, lon2) -> distance`. */
  type DistanceFn = (Value, Value, Value, Value) -> Value

  /** The three functions of `build_features_list`. */
  datatype DistanceFns = DistanceFns(haversine: DistanceFn, euclidean: DistanceFn, manhattan: DistanceFn)

  /** The four coordinate series handed to `implement_distances`, aligned with the rows. */
  datatype Coordinates = Coordinates(lat1: seq<Value>, lon1: seq<Value>, lat2: seq<Value>, lon2: seq<Value>)

  const HaversineDistance := "haversine_distance"
  const EuclideanDistance := "euclidean_distance"
  const ManhattanDistance := "manhattan_distance"

  /** `new_feature_names`. */
  const NewFeatureNames := [HaversineDistance, EuclideanDistance, ManhattanDistance]

  predicate Aligned(coords: Coordinates, n: nat)
  {
    |coords.lat1| == n && |coords.lon1| == n && |coords.lat2| == n && |coords.lon2| == n
  }

  /** `func(lat1, lon1, lat2, lon2)` on series: the function applied position by position. */
  function Apply(f: DistanceFn, coords: Coordinates, n: nat): (vs: seq<Value>)
    requires Aligned(coords, n)
    ensures |vs| == n
    ensures forall i :: 0 <= i < n ==>
              vs[i] == f(coords.lat1[i], coords.lon1[i], coords.lat2[i], coords.lon2[i])
  {
    seq(n, i requires 0 <= i < n => f(coords.lat1[i], coords.lon1[i], coords.lat2[i], coords.lon2[i]))
  }

  /** The loop of `implement_distances` over its three features, in list order.
      Every feature reads the coordinate series passed in, not the frame being
      extended. */
  function AddDistanceColumns(t: Table, coords: Coordinates, fns: DistanceFns): Table
    requires WellFormed(t)
    requires Aligned(coords, |t.rows|)
  {
    var t1 := SetColumn(t, HaversineDistance, Apply(fns.haversine, coords, |t.rows|));
    var t2 := SetColumn(t1, EuclideanDistance, Apply(fns.euclidean, coords, |t.rows|));
    SetColumn(t2, ManhattanDistance, Apply(fns.manhattan, coords, |t.rows|))
  }

  /** The three feature names are distinct. */
  lemma FeatureNamesDistinct()
    ensures HaversineDistance != EuclideanDistance
    ensures HaversineDistance != ManhattanDistance
    ensures EuclideanDistance != ManhattanDistance
  {
    assert HaversineDistance[0] != EuclideanDistance[0];
    assert HaversineDistance[0] != ManhattanDistance[0];
    assert EuclideanDistance[0] != ManhattanDistance[0];
  }

  /** The three assignments keep the frame well formed and the row count, and add
      the three feature columns, appended in order when none of them existed. */
  lemma AddDistanceColumnsShape(t: Table, coords: Coordinates, fns: DistanceFns)
    requires WellFormed(t)
    requires Aligned(coords, |t.rows|)
    ensures WellFormed(AddDistanceColumns(t, coords, fns))
    ensures |AddDistanceColumns(t, coords, fns).rows| == |t.rows|
    ensures forall c :: c in AddDistanceColumns(t, coords, fns).columns <==> c in t.columns || c in NewFeatureNames
    ensures (forall n :: n in NewFeatureNames ==> n !in t.columns) ==>
              AddDistanceColumns(t, coords, fns).columns == t.columns + NewFeatureNames
  {
    FeatureNamesDistinct();
  }

  /** Row by row, the three assignments store each distance of that row's
      coordinates and keep every other cell. */
  lemma AddDistanceColumnsRow(t: Table, coords: Coordinates, fns: DistanceFns, i: int)
    requires WellFormed(t)
    requires Aligned(coords, |t.rows|)
    requires 0 <= i < |t.rows|
    ensures |AddDistanceColumns(t, coords, fns).rows| == |t.rows|
    ensures var out := AddDistanceColumns(t, coords, fns).rows[i];
            && Cell(out, HaversineDistance)
               == fns.haversine(coords.lat1[i], coords.lon1[i], coords.lat2[i], coords.lon2[i])
            && Cell(out, EuclideanDistance)
               == fns.euclidean(coords.lat1[i], coords.lon1[i], coords.lat2[i], coords.lon2[i])
            && Cell(out, ManhattanDistance)
               == fns.manhattan(coords.lat1[i], coords.lon1[i], coords.lat2[i], coords.lon2[i])
            && forall c :: c in t.rows[i] && c !in NewFeatureNames ==> c in out && out[c] == t.rows[i][c]
  {
    FeatureNamesDistinct();
    var t1 := SetColumn(t, HaversineDistance, Apply(fns.haversine, coords, |t.rows|));
    var t2 := SetColumn(t1, EuclideanDistance, Apply(fns.euclidean, coords, |t.rows|));
    assert Cell(t2.rows[i], HaversineDistance) == Cell(t1.rows[i], HaversineDistance);
  }

  /** Row `out` is row `inp` with the three distances of its coordinates added and
      every other cell kept. */
  ghost predicate DistancesOf(out: Row, inp: Row, lat1: string, lon1: string, lat2: string, lon2: string,
                              fns: DistanceFns)
  {
    var a := Cell(inp, lat1);
    var b := Cell(inp, lon1);
    var c := Cell(inp, lat2);
    var d := Cell(inp, lon2);
    && Cell(out, HaversineDistance) == fns.haversine(a, b, c, d)
    && Cell(out, EuclideanDistance) == fns.euclidean(a, b, c, d)
    && Cell(out, ManhattanDistance) == fns.manhattan(a, b, c, d)
    && forall k :: k in inp && k !in NewFeatureNames ==> k in out && out[k] == inp[k]
  }

  /** `implement_distances` together with its call in the script, which reads the
      four coordinate columns first (a KeyError if one is absent). The result has
      the three distance columns, each row's value computed from that row's
      coordinates, every other cell and the row order unchanged. */
  function ImplementDistances(t: Table, lat1: string, lon1: string, lat2: string, lon2: string,
                              fns: DistanceFns): (r: Result<Table>)
    requires WellFormed(t)
    ensures r.Ok? <==> lat1 in t.columns && lon1 in t.columns && lat2 in t.columns && lon2 in t.columns
    ensures r.Err? ==> r.error.MissingColumn? && r.error.name in [lat1, lon1, lat2, lon2]
                       && r.error.name !in t.columns
    ensures r.Ok? ==> WellFormed(r.value) && |r.value.rows| == |t.rows|
    ensures r.Ok? ==> forall c :: c in r.value.columns <==> c in t.columns || c in NewFeatureNames
    ensures r.Ok? && (forall n :: n in NewFeatureNames ==> n !in t.columns) ==>
              r.value.columns == t.columns + NewFeatureNames
    ensures r.Ok? ==> forall i :: 0 <= i < |t.rows| ==>
              DistancesOf(r.value.rows[i], t.rows[i], lat1, lon1, lat2, lon2, fns)
  {
    var coordinates := [lat1, lon1, lat2, lon2];
    var k := FirstMissing(coordinates, t.columns);
    assert coordinates[0] == lat1 && coordinates[1] == lon1 && coordinates[2] == lat2 && coordinates[3] == lon2;
    if k < |coordinates| then Err(MissingColumn(coordinates[k]))
    else
      var coords := Coordinates(Column(t, lat1), Column(t, lon1), Column(t, lat2), Column(t, lon2));
      AddDistanceColumnsShape(t, coords, fns);
      assert forall i :: 0 <= i < |t.rows| ==> DistancesOf(AddDistanceColumns(t, coords, fns).rows[i], t.rows[i], lat1, lon1, lat2, lon2, fns) by {
        forall i | 0 <= i < |t.rows|
          ensures DistancesOf(AddDistanceColumns(t, coords, fns).rows[i], t.rows[i], lat1, lon1, lat2, lon2, fns)
        {
          AddDistanceColumnsRow(t, coords, fns, i);
        }
      }
      Ok(AddDistanceColumns(t, coords, fns))
  }
}
