/**
 * The map markers (`getPoints` in src/components/Map.jsx): one point per
 * case, carrying the tooltip fields, the place of stay, the coordinate and a
 * colour that shows whether the case has been discharged.
 */
module MapPoints {
  import opened Rows
  import opened Sequences
  import DataGetData

  const COLOUR_DISCHARGED := "#42ff75"
  const COLOUR_TREATED := "#ff3b3b"

  const STATUS_DISCHARGED := "Discharged"
  const STATUS_IN_TREATMENT := "In treatment"

  /** The place shown when a case has no place of stay. */
  const UNKNOWN_PLACE := "Unknown"

  /** One marker. The text fields are the raw CSV columns, unparsed. */
  datatype Point = Point(
    caseNumber: string,
    gender: string,
    age: string,
    nationality: string,
    clusterGroup: string,
    status: string,
    key: string,
    name: string,
    lat: JsNumber,
    long: JsNumber,
    colour: string)

  /** `coord[i]`, which is `undefined` past the end of the array. */
  function CoordAt(coord: seq<JsNumber>, i: nat): (n: JsNumber)
    ensures i < |coord| ==> n == coord[i]
    ensures i >= |coord| ==> n == Undefined
  {
    if i < |coord| then coord[i] else Undefined
  }

  /** The marker of one case. */
  function ToPoint(d: DataGetData.Case): (p: Point)
    ensures p.caseNumber == p.key == d.row.CASE_NUMBER
    ensures p.gender == d.row.GENDER && p.age == d.row.AGE && p.nationality == d.row.NATIONALITY
    ensures p.clusterGroup == d.row.CLUSTER_LOCATION_NAME
    ensures p.status == STATUS_DISCHARGED <==> d.row.DISCHARGE_DATE != ""
    ensures p.status == STATUS_IN_TREATMENT <==> d.row.DISCHARGE_DATE == ""
    ensures p.colour == COLOUR_DISCHARGED <==> p.status == STATUS_DISCHARGED
    ensures p.colour == COLOUR_TREATED <==> p.status == STATUS_IN_TREATMENT
    ensures p.name == (if d.row.PLACE_OF_STAY != "" then d.row.PLACE_OF_STAY else UNKNOWN_PLACE)
    ensures p.name != ""
    ensures p.lat == CoordAt(d.posLocationCoord, 0) && p.long == CoordAt(d.posLocationCoord, 1)
  {
    var discharged := d.row.DISCHARGE_DATE != "";
    Point(
      d.row.CASE_NUMBER,
      d.row.GENDER,
      d.row.AGE,
      d.row.NATIONALITY,
      d.row.CLUSTER_LOCATION_NAME,
      if discharged then STATUS_DISCHARGED else STATUS_IN_TREATMENT,
      d.row.CASE_NUMBER,
      if d.row.PLACE_OF_STAY != "" then d.row.PLACE_OF_STAY else UNKNOWN_PLACE,
      CoordAt(d.posLocationCoord, 0),
      CoordAt(d.posLocationCoord, 1),
      if discharged then COLOUR_DISCHARGED else COLOUR_TREATED)
  }

  /** `getPoints`: one marker per case, in case order. */
  function GetPoints(data: seq<DataGetData.Case>): (points: seq<Point>)
    ensures |points| == |data|
    ensures forall i :: 0 <= i < |data| ==> points[i] == ToPoint(data[i])
  {
    seq(|data|, i requires 0 <= i < |data| => ToPoint(data[i]))
  }

  function IsDischargedPoint(): Point -> bool {
    (p: Point) => p.status == STATUS_DISCHARGED
  }

  function IsTreatedPoint(): Point -> bool {
    (p: Point) => p.status == STATUS_IN_TREATMENT
  }

  lemma GetPointsSnoc(data: seq<DataGetData.Case>, d: DataGetData.Case)
    ensures GetPoints(data + [d]) == GetPoints(data) + [ToPoint(d)]
  {
  }

  /**
   * The markers shown as discharged are exactly as many as the
   * "Discharged" figure beside the map.
   */
  lemma {:induction false} DischargedPointsMatchDischargedCount(data: seq<DataGetData.Case>)
    ensures |Filter(GetPoints(data), IsDischargedPoint())| == DataGetData.GetNumberOfDischarged(data)
    decreases |data|
  {
    if data != [] {
      var init, last := data[..|data| - 1], data[|data| - 1];
      assert data == init + [last];
      DischargedPointsMatchDischargedCount(init);
      GetPointsSnoc(init, last);
      FilterSnoc(GetPoints(init), ToPoint(last), IsDischargedPoint());
      FilterSnoc(init, last, DataGetData.HasDischargeText());
    }
  }

  /**
   * The markers shown as in treatment are exactly as many as the
   * "In treatment" figure, which is cases minus discharged.
   */
  lemma TreatedPointsMatchInTreatmentCount(data: seq<DataGetData.Case>)
    ensures |Filter(GetPoints(data), IsTreatedPoint())|
      == DataGetData.GetNumberOfCases(data) - DataGetData.GetNumberOfDischarged(data)
  {
    var points := GetPoints(data);
    DischargedPointsMatchDischargedCount(data);
    forall p | p in points ensures IsTreatedPoint()(p) <==> !IsDischargedPoint()(p) {
      var i :| 0 <= i < |points| && points[i] == p;
      assert p == ToPoint(data[i]);
    }
    FilterComplement(points, IsDischargedPoint(), IsTreatedPoint());
  }

  /** A case whose coordinate text has no comma gets an undefined longitude. */
  lemma PointWithoutCommaHasNoLongitude(row: Row, parsers: Parsers)
    requires ',' !in row.POS_LOCATION_COORD
    ensures ToPoint(DataGetData.ProcessData([row], parsers)[0]).long == Undefined
  {
    assert multiset(row.POS_LOCATION_COORD)[','] == 0;
  }

  /** A case whose coordinate text is "lat,long" is placed at those two numbers. */
  lemma PointAtLatLong(row: Row, parsers: Parsers, lat: string, long: string)
    requires row.POS_LOCATION_COORD == lat + "," + long
    requires lat != "" && long != "" && ',' !in lat && ',' !in long
    ensures var p := ToPoint(DataGetData.ProcessData([row], parsers)[0]);
      p.lat == parsers.parseFloat(lat) && p.long == parsers.parseFloat(long)
  {
    DataGetData.ParseCoordPair(lat, long, parsers);
  }
}
