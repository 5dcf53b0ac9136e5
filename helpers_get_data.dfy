/**
 * The richer case-record derivations (src/helpers/getData.js): discharge
 * status against an as-of date, the discharged count, the nationality tally
 * with a substring country lookup, cluster locations, the date bounds of the
 * data set and the age-bracket tally.
 *
 * Dates are day ordinals; a date the date library cannot parse is `None`.
 */
module HelpersGetData {
  import opened Wrappers
  import opened Rows
  import opened Sequences
  import opened Strings
  import NationalityTally

  // ---------------------------------------------------------------------
  // normalised records

  /** A case: the raw row (kept whole, as the object spread does) plus the parsed fields. */
  datatype Case = Case(
    row: Row,
    caseNumber: Option<int>,
    confirmedDate: Option<int>,
    dischargeDate: Option<int>,
    age: Option<int>,
    posLocationCoord: seq<string>)

  /** `processData`: one case per row, in order, with the parsed fields added. */
  function ProcessData(rows: seq<Row>, parsers: Parsers): (data: seq<Case>)
    ensures |data| == |rows|
    ensures forall i :: 0 <= i < |rows| ==>
      && data[i].row == rows[i]
      && data[i].caseNumber == parsers.parseInt(rows[i].CASE_NUMBER)
      && data[i].confirmedDate == parsers.parseDate(rows[i].CONFIRMED_DATE)
      && data[i].dischargeDate == parsers.parseDate(rows[i].DISCHARGE_DATE)
      && data[i].age == parsers.parseInt(rows[i].AGE)
      && data[i].posLocationCoord == [rows[i].POS_LOCATION_LAT, rows[i].POS_LOCATION_LONG]
  {
    seq(|rows|, i requires 0 <= i < |rows| =>
      var d := rows[i];
      Case(d, parsers.parseInt(d.CASE_NUMBER), parsers.parseDate(d.CONFIRMED_DATE),
        parsers.parseDate(d.DISCHARGE_DATE), parsers.parseInt(d.AGE),
        [d.POS_LOCATION_LAT, d.POS_LOCATION_LONG]))
  }

  // ---------------------------------------------------------------------
  // discharge status

  /**
   * `checkDischarge(patient, currentDate)`: discharged by `currentDate`. A
   * missing or invalid discharge date, or an invalid as-of date, gives false.
   */
  predicate CheckDischarge(patient: Case, currentDate: Option<int>) {
    patient.dischargeDate.Some? && currentDate.Some? &&
    patient.dischargeDate.value <= currentDate.value
  }

  /** `d => checkDischarge(d, currentDate)`. */
  function DischargedAt(currentDate: Option<int>): Case -> bool {
    (d: Case) => CheckDischarge(d, currentDate)
  }

  /** A case without a valid discharge date is never discharged. */
  lemma NoDischargeDateNeverDischarged(patient: Case)
    requires patient.dischargeDate.None?
    ensures forall currentDate :: !CheckDischarge(patient, currentDate)
  {
  }

  /** With a valid discharge date D, the case is discharged at exactly the dates on or after D. */
  lemma DischargedFromDischargeDate(patient: Case, currentDate: int)
    requires patient.dischargeDate.Some?
    ensures CheckDischarge(patient, Some(currentDate)) <==> patient.dischargeDate.value <= currentDate
  {
  }

  /** Once discharged at some date, a case stays discharged at every later date. */
  lemma CheckDischargeMonotone(patient: Case, earlier: int, later: int)
    requires earlier <= later
    requires CheckDischarge(patient, Some(earlier))
    ensures CheckDischarge(patient, Some(later))
  {
  }

  // ---------------------------------------------------------------------
  // counts

  /** `getNumberOfCases`. */
  function GetNumberOfCases(data: seq<Case>): nat {
    |data|
  }

  /**
   * `getNumberOfDischarged`: the cases discharged as of the last case's
   * confirmed date. The source reads `data[data.length - 1]`, so the data
   * must not be empty.
   */
  function GetNumberOfDischarged(data: seq<Case>): (n: nat)
    requires |data| > 0
    ensures n <= GetNumberOfCases(data)
    ensures n == GetNumberOfCases(data) <==>
      forall d :: d in data ==> CheckDischarge(d, data[|data| - 1].confirmedDate)
    ensures n == 0 <==> forall d :: d in data ==> !CheckDischarge(d, data[|data| - 1].confirmedDate)
    ensures data[|data| - 1].confirmedDate.None? ==> n == 0
  {
    var latest := data[|data| - 1].confirmedDate;
    var discharged := Filter(data, DischargedAt(latest));
    var remaining := Filter(data, (d: Case) => !CheckDischarge(d, latest));
    FilterComplement(data, DischargedAt(latest), (d: Case) => !CheckDischarge(d, latest));
    assert forall d :: d in data && !CheckDischarge(d, latest) ==> d in remaining;
    assert forall d :: d in data && CheckDischarge(d, latest) ==> d in discharged;
    assert discharged != [] ==> discharged[0] in discharged;
    assert (forall d :: d in data ==> CheckDischarge(d, latest)) ==> discharged == data by {
      if forall d :: d in data ==> CheckDischarge(d, latest) {
        FilterAll(data, DischargedAt(latest));
      }
    }
    |discharged|
  }

  /** The number of cases discharged as of a date never decreases as the date moves later. */
  lemma DischargedCountMonotone(data: seq<Case>, earlier: int, later: int)
    requires earlier <= later
    ensures |Filter(data, DischargedAt(Some(earlier)))| <= |Filter(data, DischargedAt(Some(later)))|
  {
    FilterMonotone(data, DischargedAt(Some(earlier)), DischargedAt(Some(later)));
  }

  // ---------------------------------------------------------------------
  // nationality tally

  /** `data.map(d => d.NATIONALITY)`. */
  function Nationalities(data: seq<Case>): (nationalities: seq<string>)
    ensures |nationalities| == |data|
    ensures forall i :: 0 <= i < |data| ==> nationalities[i] == data[i].row.NATIONALITY
  {
    seq(|data|, i requires 0 <= i < |data| => data[i].row.NATIONALITY)
  }

  /** An entry of the country table: its ISO code (the key) and its name (the value). */
  datatype Country = Country(code: string, name: string)

  /**
   * `Object.values(countries).findIndex(d => d.includes(country))`: the first
   * entry whose name includes `country`, or -1.
   */
  function FindCountryIndex(countries: seq<Country>, country: string): (ind: int)
    ensures -1 <= ind < |countries|
    ensures ind == -1 <==> forall i :: 0 <= i < |countries| ==> !Includes(countries[i].name, country)
    ensures ind >= 0 ==> Includes(countries[ind].name, country)
    ensures forall j :: 0 <= j < ind ==> !Includes(countries[j].name, country)
    decreases |countries|
  {
    if countries == [] then -1
    else if Includes(countries[0].name, country) then 0
    else
      var k := FindCountryIndex(countries[1..], country);
      if k == -1 then -1 else k + 1
  }

  /**
   * `getCountryCode`: "sg" for "Singapore PR"; otherwise the code of the
   * first table entry whose name includes `country`, or `undefined` (None)
   * when there is none (`Object.keys(...)[-1]`).
   */
  function GetCountryCode(countries: seq<Country>, country: string): (code: Option<string>)
    ensures country == "Singapore PR" ==> code == Some("sg")
    ensures country != "Singapore PR" ==>
      (code.None? <==> forall i :: 0 <= i < |countries| ==> !Includes(countries[i].name, country))
    ensures country != "Singapore PR" && code.Some? ==>
      exists i :: 0 <= i < |countries| && code.value == countries[i].code
        && Includes(countries[i].name, country)
        && forall j :: 0 <= j < i ==> !Includes(countries[j].name, country)
  {
    if country == "Singapore PR" then Some("sg")
    else
      var ind := FindCountryIndex(countries, country);
      if ind < 0 then None else Some(countries[ind].code)
  }

  /** A nationality spelled exactly as some country name always resolves to a code. */
  lemma ExactCountryNameResolves(countries: seq<Country>, k: nat)
    requires k < |countries|
    ensures GetCountryCode(countries, countries[k].name).Some?
  {
    IncludesSelf(countries[k].name);
  }

  /** `getNationalitySummary` with the substring country lookup. */
  function GetNationalitySummary(data: seq<Case>, countries: seq<Country>): (summary: seq<NationalityTally.NationalityEntry<Option<string>>>)
    ensures |summary| <= |data|
    ensures forall i :: 0 <= i < |summary| ==>
      && summary[i].nationality in Nationalities(data)
      && summary[i].count == Count(Nationalities(data), summary[i].nationality) >= 1
      && summary[i].countryCode == GetCountryCode(countries, summary[i].nationality)
    ensures forall i, j :: 0 <= i < j < |summary| ==> summary[i].nationality != summary[j].nationality
  {
    NationalityTally.Summary(Nationalities(data), (n: string) => GetCountryCode(countries, n))
  }

  /** The nationality counts add up to the number of cases. */
  lemma NationalityCountsSumToCases(data: seq<Case>, countries: seq<Country>)
    ensures NationalityTally.SumCounts(GetNationalitySummary(data, countries)) == GetNumberOfCases(data)
  {
    NationalityTally.SummaryCountsSumToRecords(Nationalities(data), (n: string) => GetCountryCode(countries, n));
  }

  // ---------------------------------------------------------------------
  // cluster locations

  datatype ClusterLocation = ClusterLocation(name: string, id: string, caseCount: nat, clusterCoord: seq<string>)

  /** `data.map(d => d.CLUSTER_LOCATION_ID)`. */
  function ClusterIds(data: seq<Case>): (ids: seq<string>)
    ensures |ids| == |data|
    ensures forall i :: 0 <= i < |data| ==> ids[i] == data[i].row.CLUSTER_LOCATION_ID
  {
    seq(|data|, i requires 0 <= i < |data| => data[i].row.CLUSTER_LOCATION_ID)
  }

  /** `d => d.CLUSTER_LOCATION_ID === id`. */
  function HasClusterId(id: string): Case -> bool {
    (d: Case) => d.row.CLUSTER_LOCATION_ID == id
  }

  /** The number of cases carrying `id` is the number of times `id` occurs among the ids. */
  lemma {:induction false} ClusterCountMatchesIds(data: seq<Case>, id: string)
    ensures |Filter(data, HasClusterId(id))| == Count(ClusterIds(data), id)
    decreases |data|
  {
    if data != [] {
      var init := data[..|data| - 1];
      assert data == init + [data[|data| - 1]];
      ClusterCountMatchesIds(init, id);
      FilterSnoc(init, data[|data| - 1], HasClusterId(id));
      assert ClusterIds(data) == ClusterIds(init) + [data[|data| - 1].row.CLUSTER_LOCATION_ID];
      CountSnoc(ClusterIds(init), data[|data| - 1].row.CLUSTER_LOCATION_ID, id);
    }
  }

  /** The cluster entry for `id`, built from the first case carrying it. */
  function ClusterLocationOf(data: seq<Case>, id: string): (cluster: ClusterLocation)
    requires id in ClusterIds(data)
    ensures cluster.id == id
    ensures cluster.caseCount == Count(ClusterIds(data), id) && cluster.caseCount >= 1
  {
    var k :| 0 <= k < |data| && ClusterIds(data)[k] == id;
    assert data[k] in data && HasClusterId(id)(data[k]);
    var withId := Filter(data, HasClusterId(id));
    ClusterCountMatchesIds(data, id);
    var singleCase := withId[0];
    assert singleCase in withId;
    ClusterLocation(
      singleCase.row.CLUSTER_LOCATION_NAME,
      singleCase.row.CLUSTER_LOCATION_ID,
      |withId|,
      [singleCase.row.CLUSTER_LOCATION_LAT, singleCase.row.CLUSTER_LOCATION_LONG])
  }

  /** The name and coordinates of a cluster entry are those of the first case carrying its id. */
  lemma ClusterLocationFromFirstCase(data: seq<Case>, id: string)
    requires id in ClusterIds(data)
    ensures var k := FirstIndex(ClusterIds(data), id);
      && ClusterLocationOf(data, id).name == data[k].row.CLUSTER_LOCATION_NAME
      && ClusterLocationOf(data, id).clusterCoord == [data[k].row.CLUSTER_LOCATION_LAT, data[k].row.CLUSTER_LOCATION_LONG]
  {
    var ids := ClusterIds(data);
    var k := FirstIndex(ids, id);
    forall j | 0 <= j < k ensures !HasClusterId(id)(data[j]) {
      assert ids[..k][j] == ids[j];
    }
    FilterFirst(data, HasClusterId(id), k);
  }

  /**
   * `getClusterLocations` as written: the distinct cluster ids in order of
   * first appearance, with the first of them dropped (`shift()`), each mapped
   * to its cluster entry.
   */
  function GetClusterLocations(data: seq<Case>): (clusters: seq<ClusterLocation>)
    ensures |clusters| == if |Distinct(ClusterIds(data))| == 0 then 0 else |Distinct(ClusterIds(data))| - 1
    ensures forall i :: 0 <= i < |clusters| ==>
      && clusters[i].id == Distinct(ClusterIds(data))[i + 1]
      && clusters[i].caseCount == Count(ClusterIds(data), clusters[i].id)
      && clusters[i].caseCount >= 1
    ensures forall i :: 0 <= i < |clusters| ==>
      && clusters[i].id in ClusterIds(data)
      && clusters[i] == ClusterLocationOf(data, clusters[i].id)
      && clusters[i].name == data[FirstIndex(ClusterIds(data), clusters[i].id)].row.CLUSTER_LOCATION_NAME
      && clusters[i].clusterCoord == [data[FirstIndex(ClusterIds(data), clusters[i].id)].row.CLUSTER_LOCATION_LAT,
                                      data[FirstIndex(ClusterIds(data), clusters[i].id)].row.CLUSTER_LOCATION_LONG]
  {
    var uniqueLocationId := DropFirst(Distinct(ClusterIds(data)));
    assert forall id :: id in uniqueLocationId ==>
      var k := FirstIndex(ClusterIds(data), id);
      && ClusterLocationOf(data, id).name == data[k].row.CLUSTER_LOCATION_NAME
      && ClusterLocationOf(data, id).clusterCoord == [data[k].row.CLUSTER_LOCATION_LAT, data[k].row.CLUSTER_LOCATION_LONG]
    by {
      forall id | id in uniqueLocationId
        ensures var k := FirstIndex(ClusterIds(data), id);
          && ClusterLocationOf(data, id).name == data[k].row.CLUSTER_LOCATION_NAME
          && ClusterLocationOf(data, id).clusterCoord == [data[k].row.CLUSTER_LOCATION_LAT, data[k].row.CLUSTER_LOCATION_LONG]
      {
        ClusterLocationFromFirstCase(data, id);
      }
    }
    seq(|uniqueLocationId|, i requires 0 <= i < |uniqueLocationId| =>
      ClusterLocationOf(data, uniqueLocationId[i]))
  }

  /** No two cluster entries share an id, and they follow first appearance in the data. */
  lemma ClusterLocationsDistinctInOrder(data: seq<Case>)
    ensures forall i, j :: 0 <= i < j < |GetClusterLocations(data)| ==>
      && GetClusterLocations(data)[i].id != GetClusterLocations(data)[j].id
      && FirstIndex(ClusterIds(data), GetClusterLocations(data)[i].id)
           < FirstIndex(ClusterIds(data), GetClusterLocations(data)[j].id)
  {
    DistinctInFirstAppearanceOrder(ClusterIds(data));
  }

  /** The id of the first case is the one `shift()` drops, whatever it is. */
  lemma FirstCaseClusterIsDropped(data: seq<Case>)
    requires |data| > 0
    ensures forall c :: c in GetClusterLocations(data) ==> c.id != data[0].row.CLUSTER_LOCATION_ID
  {
    var ids := ClusterIds(data);
    DistinctHead(ids);
    var clusters := GetClusterLocations(data);
    forall c | c in clusters ensures c.id != data[0].row.CLUSTER_LOCATION_ID {
      var i :| 0 <= i < |clusters| && clusters[i] == c;
      assert Distinct(ids)[0] == data[0].row.CLUSTER_LOCATION_ID;
    }
  }

  /**
   * When the first case belongs to a cluster, the empty id of cases without
   * one is not the id `shift()` drops, so it is listed as a cluster.
   */
  lemma EmptyClusterKeptUnlessFirst(data: seq<Case>, k: nat)
    requires k < |data| && data[k].row.CLUSTER_LOCATION_ID == ""
    requires data[0].row.CLUSTER_LOCATION_ID != ""
    ensures exists c :: c in GetClusterLocations(data) && c.id == ""
  {
    var ids := ClusterIds(data);
    var unique := Distinct(ids);
    DistinctHead(ids);
    assert ids[k] == "" && ids[k] in ids;
    var j :| 0 <= j < |unique| && unique[j] == "";
    assert j != 0;
    var clusters := GetClusterLocations(data);
    assert clusters[j - 1].id == "";
    assert clusters[j - 1] in clusters;
  }

  /** The id of cases that belong to no cluster: an empty CSV cell. */
  const NO_CLUSTER := ""

  /** The distinct ids of real clusters, in order of first appearance. */
  function ClusterIdsIntended(data: seq<Case>): (ids: seq<string>)
    ensures NoDuplicates(ids)
    ensures forall id :: id in ids ==> id in ClusterIds(data) && id != NO_CLUSTER
    ensures forall id :: id in ClusterIds(data) && id != NO_CLUSTER ==> id in ids
  {
    var unique := Distinct(ClusterIds(data));
    FilterKeepsNoDuplicates(unique, (id: string) => id != NO_CLUSTER);
    Filter(unique, (id: string) => id != NO_CLUSTER)
  }

  /**
   * Cluster locations as the comment on the `shift()` intends: one entry per
   * distinct id except the empty "no cluster" id, in order of first
   * appearance.
   */
  function GetClusterLocationsIntended(data: seq<Case>): (clusters: seq<ClusterLocation>)
    ensures |clusters| == |ClusterIdsIntended(data)|
    ensures forall i :: 0 <= i < |clusters| ==>
      && clusters[i].id == ClusterIdsIntended(data)[i]
      && clusters[i].caseCount == Count(ClusterIds(data), clusters[i].id)
      && clusters[i].caseCount >= 1
  {
    var uniqueLocationId := ClusterIdsIntended(data);
    seq(|uniqueLocationId|, i requires 0 <= i < |uniqueLocationId| =>
      ClusterLocationOf(data, uniqueLocationId[i]))
  }

  /** The intended version has exactly one entry for each real cluster id of the data. */
  lemma IntendedListsEachRealClusterOnce(data: seq<Case>)
    ensures forall id :: id in ClusterIds(data) && id != NO_CLUSTER ==>
      exists i :: 0 <= i < |GetClusterLocationsIntended(data)| && GetClusterLocationsIntended(data)[i].id == id
    ensures forall i, j :: 0 <= i < j < |GetClusterLocationsIntended(data)| ==>
      GetClusterLocationsIntended(data)[i].id != GetClusterLocationsIntended(data)[j].id
    ensures forall c :: c in GetClusterLocationsIntended(data) ==> c.id != NO_CLUSTER
  {
    var ids := ClusterIdsIntended(data);
    var clusters := GetClusterLocationsIntended(data);
    forall id | id in ClusterIds(data) && id != NO_CLUSTER
      ensures exists i :: 0 <= i < |clusters| && clusters[i].id == id
    {
      var i :| 0 <= i < |ids| && ids[i] == id;
      assert clusters[i].id == id;
    }
    forall c | c in clusters ensures c.id != NO_CLUSTER {
      var i :| 0 <= i < |clusters| && clusters[i] == c;
      assert ids[i] in ids;
    }
  }

  /** Filtering a duplicate-free sequence keeps it duplicate-free. */
  lemma {:induction false} FilterKeepsNoDuplicates(s: seq<string>, p: string -> bool)
    requires NoDuplicates(s)
    ensures NoDuplicates(Filter(s, p))
    decreases |s|
  {
    if s != [] {
      var init := s[..|s| - 1];
      assert s == init + [s[|s| - 1]];
      FilterKeepsNoDuplicates(init, p);
      assert s[|s| - 1] !in init;
    }
  }

  /** Unlike the code as written, the intended version keeps the first case's cluster. */
  lemma IntendedKeepsFirstCaseCluster(data: seq<Case>)
    requires |data| > 0 && data[0].row.CLUSTER_LOCATION_ID != NO_CLUSTER
    ensures exists c :: c in GetClusterLocationsIntended(data) && c.id == data[0].row.CLUSTER_LOCATION_ID
    ensures forall c :: c in GetClusterLocations(data) ==> c.id != data[0].row.CLUSTER_LOCATION_ID
  {
    FirstCaseClusterIsDropped(data);
    IntendedListsEachRealClusterOnce(data);
    var clusters := GetClusterLocationsIntended(data);
    assert ClusterIds(data)[0] in ClusterIds(data);
    var i :| 0 <= i < |clusters| && clusters[i].id == data[0].row.CLUSTER_LOCATION_ID;
    assert clusters[i] in clusters;
  }

  // ---------------------------------------------------------------------
  // date bounds

  /** `firstDate` / `lastDate` of the result: `null`, an invalid date (NaN), or a day. */
  datatype DateBound = NullDate | InvalidDate | Date(day: int)

  datatype DatesAndDuration = DatesAndDuration(
    days: Option<int>,
    milliseconds: Option<int>,
    firstDate: DateBound,
    lastDate: DateBound)

  const MS_PER_DAY := 86_400_000

  function ToBound(date: Option<int>): DateBound {
    if date.None? then InvalidDate else Date(date.value)
  }

  /**
   * `getDatesAndDuration`: a fixed sentinel for no data; otherwise the first
   * and last cases' confirmed dates and the number of days between them
   * (undefined when either date is invalid).
   */
  function GetDatesAndDuration(data: seq<Case>): (r: DatesAndDuration)
    ensures |data| == 0 ==> r == DatesAndDuration(Some(1), Some(10000), NullDate, NullDate)
    ensures |data| > 0 ==>
      && r.firstDate == ToBound(data[0].confirmedDate)
      && r.lastDate == ToBound(data[|data| - 1].confirmedDate)
      && (r.days.Some? <==> data[0].confirmedDate.Some? && data[|data| - 1].confirmedDate.Some?)
      && (r.days.Some? ==>
            r.days.value == data[|data| - 1].confirmedDate.value - data[0].confirmedDate.value
            && r.milliseconds == Some(r.days.value * MS_PER_DAY))
  {
    if |data| == 0 then DatesAndDuration(Some(1), Some(10000), NullDate, NullDate)
    else
      var first := data[0].confirmedDate;
      var last := data[|data| - 1].confirmedDate;
      var days := if first.Some? && last.Some? then Some(last.value - first.value) else None;
      var milliseconds := if days.Some? then Some(days.value * MS_PER_DAY) else None;
      DatesAndDuration(days, milliseconds, ToBound(first), ToBound(last))
  }

  /** Every confirmed date is valid and they never decrease along the data. */
  ghost predicate SortedByConfirmedDate(data: seq<Case>) {
    && (forall i :: 0 <= i < |data| ==> data[i].confirmedDate.Some?)
    && (forall i, j :: 0 <= i < j < |data| ==> data[i].confirmedDate.value <= data[j].confirmedDate.value)
  }

  /** On sorted data the bounds enclose every confirmed date and the day span is not negative. */
  lemma SortedDatesSpan(data: seq<Case>)
    requires |data| > 0 && SortedByConfirmedDate(data)
    ensures GetDatesAndDuration(data).days.Some? && GetDatesAndDuration(data).days.value >= 0
    ensures forall i :: 0 <= i < |data| ==>
      GetDatesAndDuration(data).firstDate.day <= data[i].confirmedDate.value <= GetDatesAndDuration(data).lastDate.day
  {
    var n := |data|;
    forall i | 0 <= i < n
      ensures data[0].confirmedDate.value <= data[i].confirmedDate.value <= data[n - 1].confirmedDate.value
    {
      if 0 < i { assert data[0].confirmedDate.value <= data[i].confirmedDate.value; }
      if i < n - 1 { assert data[i].confirmedDate.value <= data[n - 1].confirmedDate.value; }
    }
  }

  // ---------------------------------------------------------------------
  // age brackets

  /** A bracket of the table; `labelText` is the source's `label` (a reserved word here). */
  datatype AgeBracket = AgeBracket(labelText: string, min: int, max: int)

  /** `AGE_GROUP_BRACKETS`, oldest first. */
  const AGE_GROUP_BRACKETS: seq<AgeBracket> := [
    AgeBracket("80 +", 80, 100),
    AgeBracket("70 - 79", 70, 79),
    AgeBracket("60 - 69", 60, 69),
    AgeBracket("50 - 59", 50, 59),
    AgeBracket("40 - 49", 40, 49),
    AgeBracket("30 - 39", 30, 39),
    AgeBracket("20 - 29", 20, 29),
    AgeBracket("0 - 19", 0, 19)
  ]

  datatype GenderSplit = GenderSplit(female: seq<Case>, male: seq<Case>, other: seq<Case>)

  datatype TreatmentSplit = TreatmentSplit(discharged: nat, treatment: nat)

  datatype AgeGroup = AgeGroup(
    labelText: string,
    min: int,
    max: int,
    count: nat,
    genderSplit: GenderSplit,
    treatmentSplit: TreatmentSplit)

  datatype AgeSummary = AgeSummary(max: nat, dataByAge: seq<AgeGroup>)

  /** `d.age >= min && d.age <= max`; an unparsed age (NaN) is in no bracket. */
  predicate InBracket(d: Case, bracket: AgeBracket) {
    d.age.Some? && d.age.value >= bracket.min && d.age.value <= bracket.max
  }

  function InBracketOf(bracket: AgeBracket): Case -> bool {
    (d: Case) => InBracket(d, bracket)
  }

  /** `d => d.GENDER === gender`. */
  function HasGender(gender: string): Case -> bool {
    (d: Case) => d.row.GENDER == gender
  }

  /** `d => d.GENDER !== "Female" && d.GENDER !== "Male"`. */
  function HasOtherGender(): Case -> bool {
    (d: Case) => d.row.GENDER != "Female" && d.row.GENDER != "Male"
  }

  /** A case of the bracket with the given gender. */
  function InBracketWithGender(bracket: AgeBracket, gender: string): Case -> bool {
    (d: Case) => InBracket(d, bracket) && d.row.GENDER == gender
  }

  /** A case of the bracket that is neither Female nor Male. */
  function InBracketWithOtherGender(bracket: AgeBracket): Case -> bool {
    (d: Case) => InBracket(d, bracket) && d.row.GENDER != "Female" && d.row.GENDER != "Male"
  }

  /** One bracket's entry: its cases, their gender split and their treatment split at `latestDate`. */
  function GroupOf(data: seq<Case>, bracket: AgeBracket, latestDate: Option<int>): (group: AgeGroup)
    ensures group.labelText == bracket.labelText && group.min == bracket.min && group.max == bracket.max
    ensures group.count == |Filter(data, InBracketOf(bracket))|
    ensures group.count <= |data|
    ensures |group.genderSplit.female| + |group.genderSplit.male| + |group.genderSplit.other| == group.count
    ensures forall d :: d in group.genderSplit.female ==> d in data && InBracket(d, bracket) && d.row.GENDER == "Female"
    ensures forall d :: d in group.genderSplit.male ==> d in data && InBracket(d, bracket) && d.row.GENDER == "Male"
    ensures forall d :: d in group.genderSplit.other ==>
      d in data && InBracket(d, bracket) && d.row.GENDER != "Female" && d.row.GENDER != "Male"
    ensures forall d :: d in data && InBracket(d, bracket) && d.row.GENDER == "Female" ==> d in group.genderSplit.female
    ensures forall d :: d in data && InBracket(d, bracket) && d.row.GENDER == "Male" ==> d in group.genderSplit.male
    ensures forall d :: d in data && InBracket(d, bracket) && d.row.GENDER != "Female" && d.row.GENDER != "Male" ==>
      d in group.genderSplit.other
    ensures group.genderSplit.female == Filter(data, InBracketWithGender(bracket, "Female"))
    ensures group.genderSplit.male == Filter(data, InBracketWithGender(bracket, "Male"))
    ensures group.genderSplit.other == Filter(data, InBracketWithOtherGender(bracket))
    ensures group.treatmentSplit.discharged == |Filter(Filter(data, InBracketOf(bracket)), DischargedAt(latestDate))|
    ensures group.treatmentSplit.discharged + group.treatmentSplit.treatment == group.count
  {
    var dataInGroup := Filter(data, InBracketOf(bracket));
    forall d | d in data && InBracket(d, bracket) ensures d in dataInGroup {
      assert InBracketOf(bracket)(d);
    }
    var female := Filter(dataInGroup, HasGender("Female"));
    var male := Filter(dataInGroup, HasGender("Male"));
    var other := Filter(dataInGroup, HasOtherGender());
    FilterPartition3(dataInGroup, HasGender("Female"), HasGender("Male"), HasOtherGender());
    FilterFilter(data, InBracketOf(bracket), HasGender("Female"), InBracketWithGender(bracket, "Female"));
    FilterFilter(data, InBracketOf(bracket), HasGender("Male"), InBracketWithGender(bracket, "Male"));
    FilterFilter(data, InBracketOf(bracket), HasOtherGender(), InBracketWithOtherGender(bracket));
    var discharged := Filter(dataInGroup, DischargedAt(latestDate));
    var treatment := Filter(dataInGroup, (d: Case) => !CheckDischarge(d, latestDate));
    FilterComplement(dataInGroup, DischargedAt(latestDate), (d: Case) => !CheckDischarge(d, latestDate));
    AgeGroup(bracket.labelText, bracket.min, bracket.max, |dataInGroup|,
      GenderSplit(female, male, other),
      TreatmentSplit(|discharged|, |treatment|))
  }

  /** `brackets.map(...)`: one group per bracket, in bracket order. */
  function GroupsOf(data: seq<Case>, brackets: seq<AgeBracket>, latestDate: Option<int>): (groups: seq<AgeGroup>)
    ensures |groups| == |brackets|
    ensures forall i :: 0 <= i < |brackets| ==> groups[i] == GroupOf(data, brackets[i], latestDate)
  {
    seq(|brackets|, i requires 0 <= i < |brackets| => GroupOf(data, brackets[i], latestDate))
  }

  /**
   * `groupDataByAge`: the eight bracket groups, in table order, and the
   * largest count (lodash `maxBy`). Treatment status is judged at the last
   * case's confirmed date, so the data must not be empty.
   */
  function GroupDataByAge(data: seq<Case>): (r: AgeSummary)
    requires |data| > 0
    ensures |r.dataByAge| == |AGE_GROUP_BRACKETS| == 8
    ensures forall i :: 0 <= i < 8 ==>
      && r.dataByAge[i].labelText == AGE_GROUP_BRACKETS[i].labelText
      && r.dataByAge[i].min == AGE_GROUP_BRACKETS[i].min
      && r.dataByAge[i].max == AGE_GROUP_BRACKETS[i].max
      && r.dataByAge[i].count == |Filter(data, InBracketOf(AGE_GROUP_BRACKETS[i]))|
    ensures forall i :: 0 <= i < 8 ==> r.dataByAge[i].count <= r.max
    ensures exists i :: 0 <= i < 8 && r.dataByAge[i].count == r.max
    ensures r.dataByAge == GroupsOf(data, AGE_GROUP_BRACKETS, data[|data| - 1].confirmedDate)
    ensures forall i :: 0 <= i < 8 ==>
      && |r.dataByAge[i].genderSplit.female| + |r.dataByAge[i].genderSplit.male| + |r.dataByAge[i].genderSplit.other|
           == r.dataByAge[i].count
      && r.dataByAge[i].treatmentSplit.discharged
           == |Filter(Filter(data, InBracketOf(AGE_GROUP_BRACKETS[i])), DischargedAt(data[|data| - 1].confirmedDate))|
      && r.dataByAge[i].treatmentSplit.discharged + r.dataByAge[i].treatmentSplit.treatment == r.dataByAge[i].count
  {
    var latestDate := data[|data| - 1].confirmedDate;
    var dataByAge := GroupsOf(data, AGE_GROUP_BRACKETS, latestDate);
    var k := MaxByIndex(dataByAge, (g: AgeGroup) => g.count);
    AgeSummary(dataByAge[k].count, dataByAge)
  }

  /** No age lies in two brackets of the table. */
  lemma AgeBracketsDisjoint(d: Case, i: nat, j: nat)
    requires i < j < |AGE_GROUP_BRACKETS|
    ensures !(InBracket(d, AGE_GROUP_BRACKETS[i]) && InBracket(d, AGE_GROUP_BRACKETS[j]))
  {
  }

  /** An age the table covers: a parsed age from 0 to 100. */
  predicate InAgeRange(d: Case) {
    d.age.Some? && 0 <= d.age.value <= 100
  }

  function InAgeRangeOf(): Case -> bool {
    (d: Case) => InAgeRange(d)
  }

  function DischargedInAgeRangeAt(latestDate: Option<int>): Case -> bool {
    (d: Case) => InAgeRange(d) && CheckDischarge(d, latestDate)
  }

  /** How many of `brackets` contain the case's age. */
  function BracketsContaining(d: Case, brackets: seq<AgeBracket>): nat
    decreases |brackets|
  {
    if brackets == [] then 0
    else BracketsContaining(d, brackets[..|brackets| - 1]) + if InBracket(d, brackets[|brackets| - 1]) then 1 else 0
  }

  /** Exactly one bracket of the table holds an age from 0 to 100, and none holds any other. */
  lemma TableCoversAgeRangeOnce(d: Case)
    ensures BracketsContaining(d, AGE_GROUP_BRACKETS) == if InAgeRange(d) then 1 else 0
  {
    var b := AGE_GROUP_BRACKETS;
    BracketsContainingStep(d, b, 0);
    BracketsContainingStep(d, b, 1);
    BracketsContainingStep(d, b, 2);
    BracketsContainingStep(d, b, 3);
    BracketsContainingStep(d, b, 4);
    BracketsContainingStep(d, b, 5);
    BracketsContainingStep(d, b, 6);
    BracketsContainingStep(d, b, 7);
    assert b[..8] == b;
  }

  lemma BracketsContainingStep(d: Case, brackets: seq<AgeBracket>, k: nat)
    requires k < |brackets|
    ensures BracketsContaining(d, brackets[..k + 1])
      == BracketsContaining(d, brackets[..k]) + if InBracket(d, brackets[k]) then 1 else 0
  {
    assert brackets[..k + 1][..k] == brackets[..k];
  }

  function SumCounts(groups: seq<AgeGroup>): nat
    decreases |groups|
  {
    if groups == [] then 0 else SumCounts(groups[..|groups| - 1]) + groups[|groups| - 1].count
  }

  function SumDischarged(groups: seq<AgeGroup>): nat
    decreases |groups|
  {
    if groups == [] then 0
    else SumDischarged(groups[..|groups| - 1]) + groups[|groups| - 1].treatmentSplit.discharged
  }

  lemma GroupsOfPrefix(data: seq<Case>, brackets: seq<AgeBracket>, latestDate: Option<int>)
    requires |brackets| > 0
    ensures GroupsOf(data, brackets, latestDate)[..|brackets| - 1] == GroupsOf(data, brackets[..|brackets| - 1], latestDate)
  {
  }

  /** With no cases, every group is empty. */
  lemma {:induction false} GroupsOfNoData(brackets: seq<AgeBracket>, latestDate: Option<int>)
    ensures SumCounts(GroupsOf([], brackets, latestDate)) == 0
    ensures SumDischarged(GroupsOf([], brackets, latestDate)) == 0
    decreases |brackets|
  {
    if brackets != [] {
      GroupsOfPrefix([], brackets, latestDate);
      GroupsOfNoData(brackets[..|brackets| - 1], latestDate);
    }
  }

  /** One more case adds one to a group's count when its age is in the bracket, and to its discharged count when it is also discharged. */
  lemma GroupOfSnoc(data: seq<Case>, d: Case, bracket: AgeBracket, latestDate: Option<int>)
    ensures GroupOf(data + [d], bracket, latestDate).count
      == GroupOf(data, bracket, latestDate).count + if InBracket(d, bracket) then 1 else 0
    ensures GroupOf(data + [d], bracket, latestDate).treatmentSplit.discharged
      == GroupOf(data, bracket, latestDate).treatmentSplit.discharged
         + if InBracket(d, bracket) && CheckDischarge(d, latestDate) then 1 else 0
  {
    FilterSnoc(data, d, InBracketOf(bracket));
    FilterSnoc(Filter(data, InBracketOf(bracket)), d, DischargedAt(latestDate));
  }

  /** One more case adds one to the count of each bracket containing it. */
  lemma {:induction false} GroupsOfSnocCounts(data: seq<Case>, d: Case, brackets: seq<AgeBracket>, latestDate: Option<int>)
    ensures SumCounts(GroupsOf(data + [d], brackets, latestDate))
      == SumCounts(GroupsOf(data, brackets, latestDate)) + BracketsContaining(d, brackets)
    decreases |brackets|
  {
    if brackets != [] {
      var n := |brackets|;
      var before, after := GroupsOf(data, brackets, latestDate), GroupsOf(data + [d], brackets, latestDate);
      GroupsOfPrefix(data, brackets, latestDate);
      GroupsOfPrefix(data + [d], brackets, latestDate);
      assert before[..n - 1] == GroupsOf(data, brackets[..n - 1], latestDate);
      assert after[..n - 1] == GroupsOf(data + [d], brackets[..n - 1], latestDate);
      GroupsOfSnocCounts(data, d, brackets[..n - 1], latestDate);
      var groupBefore, groupAfter := GroupOf(data, brackets[n - 1], latestDate), GroupOf(data + [d], brackets[n - 1], latestDate);
      assert before[n - 1] == groupBefore;
      assert after[n - 1] == groupAfter;
      GroupOfSnoc(data, d, brackets[n - 1], latestDate);
      assert SumCounts(after) == SumCounts(after[..n - 1]) + after[n - 1].count;
      assert SumCounts(before) == SumCounts(before[..n - 1]) + before[n - 1].count;
    }
  }

  /** One more case adds one to the discharged count of each bracket containing it when it is discharged. */
  lemma {:induction false} GroupsOfSnocDischarged(data: seq<Case>, d: Case, brackets: seq<AgeBracket>, latestDate: Option<int>)
    ensures SumDischarged(GroupsOf(data + [d], brackets, latestDate))
      == SumDischarged(GroupsOf(data, brackets, latestDate))
         + if CheckDischarge(d, latestDate) then BracketsContaining(d, brackets) else 0
    decreases |brackets|
  {
    if brackets != [] {
      var n := |brackets|;
      var before, after := GroupsOf(data, brackets, latestDate), GroupsOf(data + [d], brackets, latestDate);
      GroupsOfPrefix(data, brackets, latestDate);
      GroupsOfPrefix(data + [d], brackets, latestDate);
      assert before[..n - 1] == GroupsOf(data, brackets[..n - 1], latestDate);
      assert after[..n - 1] == GroupsOf(data + [d], brackets[..n - 1], latestDate);
      GroupsOfSnocDischarged(data, d, brackets[..n - 1], latestDate);
      var groupBefore, groupAfter := GroupOf(data, brackets[n - 1], latestDate), GroupOf(data + [d], brackets[n - 1], latestDate);
      assert before[n - 1] == groupBefore;
      assert after[n - 1] == groupAfter;
      GroupOfSnoc(data, d, brackets[n - 1], latestDate);
      assert SumDischarged(after) == SumDischarged(after[..n - 1]) + after[n - 1].treatmentSplit.discharged;
      assert SumDischarged(before) == SumDischarged(before[..n - 1]) + before[n - 1].treatmentSplit.discharged;
    }
  }

  /** Over the table, the group counts add up to the cases whose age is from 0 to 100. */
  lemma {:induction false} TableGroupsSum(data: seq<Case>, latestDate: Option<int>)
    ensures SumCounts(GroupsOf(data, AGE_GROUP_BRACKETS, latestDate)) == |Filter(data, InAgeRangeOf())|
    ensures SumDischarged(GroupsOf(data, AGE_GROUP_BRACKETS, latestDate))
      == |Filter(data, DischargedInAgeRangeAt(latestDate))|
    decreases |data|
  {
    if data == [] {
      GroupsOfNoData(AGE_GROUP_BRACKETS, latestDate);
    } else {
      var init, d := data[..|data| - 1], data[|data| - 1];
      assert data == init + [d];
      TableGroupsSum(init, latestDate);
      GroupsOfSnocCounts(init, d, AGE_GROUP_BRACKETS, latestDate);
      GroupsOfSnocDischarged(init, d, AGE_GROUP_BRACKETS, latestDate);
      TableCoversAgeRangeOnce(d);
      FilterSnoc(init, d, InAgeRangeOf());
      FilterSnoc(init, d, DischargedInAgeRangeAt(latestDate));
    }
  }

  /**
   * The brackets are disjoint: their counts add up to the number of cases
   * aged 0 to 100, so to at most the number of cases, and to exactly that
   * number when every age is from 0 to 100.
   */
  lemma AgeGroupCountsConserveCases(data: seq<Case>)
    requires |data| > 0
    ensures SumCounts(GroupDataByAge(data).dataByAge) == |Filter(data, InAgeRangeOf())|
    ensures SumCounts(GroupDataByAge(data).dataByAge) <= GetNumberOfCases(data)
    ensures (forall d :: d in data ==> InAgeRange(d)) ==>
      SumCounts(GroupDataByAge(data).dataByAge) == GetNumberOfCases(data)
  {
    TableGroupsSum(data, data[|data| - 1].confirmedDate);
    if forall d :: d in data ==> InAgeRange(d) {
      FilterAll(data, InAgeRangeOf());
    }
  }

  /**
   * The age tally and the discharged count agree: when every age is from 0
   * to 100, the discharged counts of the brackets add up to
   * `getNumberOfDischarged`.
   */
  lemma AgeGroupsAgreeWithDischargedCount(data: seq<Case>)
    requires |data| > 0
    requires forall d :: d in data ==> InAgeRange(d)
    ensures SumDischarged(GroupDataByAge(data).dataByAge) == GetNumberOfDischarged(data)
  {
    var latest := data[|data| - 1].confirmedDate;
    TableGroupsSum(data, latest);
    FilterCongruent(data, DischargedInAgeRangeAt(latest), DischargedAt(latest));
  }
}
