/**
 * The simpler case-record derivations (src/data/getData.js) that the page
 * header and the nationality tally use: row normalisation with the
 * comma-separated position coordinate, the case and discharged counts, the
 * nationality tally and a fixed country-code table.
 */
module DataGetData {
  import opened Wrappers
  import opened Rows
  import opened Sequences
  import opened Strings
  import NationalityTally

  /** A case: the raw row (kept whole, as the object spread does) plus the parsed fields. */
  datatype Case = Case(
    row: Row,
    caseNumber: Option<int>,
    confirmedDate: Option<int>,
    dischargeDate: Option<int>,
    age: Option<int>,
    posLocationCoord: seq<JsNumber>)

  /** `l => l ? parseFloat(l) : undefined` for one piece of the coordinate text. */
  function CoordComponent(piece: string, parsers: Parsers): (n: JsNumber)
    ensures piece == "" ==> n == Undefined
    ensures piece != "" ==> n == parsers.parseFloat(piece)
  {
    if piece == "" then Undefined else parsers.parseFloat(piece)
  }

  /**
   * `POS_LOCATION_COORD.split(",").map(...)`: one component per
   * comma-separated piece, in order; there is always at least one, and one
   * more than there are commas.
   */
  function ParseCoord(text: string, parsers: Parsers): (coord: seq<JsNumber>)
    ensures |coord| == |Split(text, ',')| == multiset(text)[','] + 1
    ensures forall i :: 0 <= i < |coord| ==> coord[i] == CoordComponent(Split(text, ',')[i], parsers)
  {
    var pieces := Split(text, ',');
    SplitLength(text, ',');
    seq(|pieces|, i requires 0 <= i < |pieces| => CoordComponent(pieces[i], parsers))
  }

  /** A coordinate written as "lat,long" with non-empty parts parses to the two numbers. */
  lemma ParseCoordPair(lat: string, long: string, parsers: Parsers)
    requires lat != "" && long != "" && ',' !in lat && ',' !in long
    ensures ParseCoord(lat + "," + long, parsers) == [parsers.parseFloat(lat), parsers.parseFloat(long)]
  {
    SplitJoin([lat, long], ',');
    assert Join([lat, long], ',') == lat + "," + long;
  }

  /** `processData`: one case per row, in order, with the parsed fields added. */
  function ProcessData(rows: seq<Row>, parsers: Parsers): (data: seq<Case>)
    ensures |data| == |rows|
    ensures forall i :: 0 <= i < |rows| ==>
      && data[i].row == rows[i]
      && data[i].caseNumber == parsers.parseInt(rows[i].CASE_NUMBER)
      && data[i].confirmedDate == parsers.parseDate(rows[i].CONFIRMED_DATE)
      && data[i].dischargeDate == parsers.parseDate(rows[i].DISCHARGE_DATE)
      && data[i].age == parsers.parseInt(rows[i].AGE)
      && data[i].posLocationCoord == ParseCoord(rows[i].POS_LOCATION_COORD, parsers)
  {
    seq(|rows|, i requires 0 <= i < |rows| =>
      var d := rows[i];
      Case(d, parsers.parseInt(d.CASE_NUMBER), parsers.parseDate(d.CONFIRMED_DATE),
        parsers.parseDate(d.DISCHARGE_DATE), parsers.parseInt(d.AGE),
        ParseCoord(d.POS_LOCATION_COORD, parsers)))
  }

  /** `getNumberOfCases`. */
  function GetNumberOfCases(data: seq<Case>): nat {
    |data|
  }

  /** `d => d.DISCHARGE_DATE`: the discharge-date text is present (a non-empty string is truthy). */
  function HasDischargeText(): Case -> bool {
    (d: Case) => d.row.DISCHARGE_DATE != ""
  }

  /**
   * `getNumberOfDischarged`: the cases whose discharge-date text is present,
   * whatever the date says. It never exceeds the number of cases.
   */
  function GetNumberOfDischarged(data: seq<Case>): (n: nat)
    ensures n <= GetNumberOfCases(data)
    ensures n == GetNumberOfCases(data) <==> forall d :: d in data ==> d.row.DISCHARGE_DATE != ""
  {
    var discharged := Filter(data, HasDischargeText());
    FilterComplement(data, HasDischargeText(), (d: Case) => d.row.DISCHARGE_DATE == "");
    assert forall d :: d in data && d.row.DISCHARGE_DATE == "" ==> d in Filter(data, (d: Case) => d.row.DISCHARGE_DATE == "");
    assert (forall d :: d in data ==> d.row.DISCHARGE_DATE != "") ==> discharged == data by {
      if forall d :: d in data ==> d.row.DISCHARGE_DATE != "" {
        FilterAll(data, HasDischargeText());
      }
    }
    |discharged|
  }

  /** `data.map(d => d.NATIONALITY)`. */
  function Nationalities(data: seq<Case>): (nationalities: seq<string>)
    ensures |nationalities| == |data|
    ensures forall i :: 0 <= i < |data| ==> nationalities[i] == data[i].row.NATIONALITY
  {
    seq(|data|, i requires 0 <= i < |data| => data[i].row.NATIONALITY)
  }

  /** The cases of the `switch`, as a table; any other country falls to the default "sg". */
  const COUNTRY_CODES: map<string, string> := map[
    "Singapore" := "sg",
    "Singapore PR" := "sg",
    "Bangladesh" := "bd",
    "China" := "cn",
    "India" := "in",
    "Malaysia" := "my",
    "Indonesia" := "id"
  ]

  /** `getCountryCode`: the `switch` over the listed countries, "sg" by default. */
  function GetCountryCode(country: string): (code: string)
    ensures code == if country in COUNTRY_CODES then COUNTRY_CODES[country] else "sg"
    ensures |code| == 2
  {
    match country
    case "Singapore" => "sg"
    case "Singapore PR" => "sg"
    case "Bangladesh" => "bd"
    case "China" => "cn"
    case "India" => "in"
    case "Malaysia" => "my"
    case "Indonesia" => "id"
    case _ => "sg"
  }

  /** Only the five listed foreign countries map to a code other than "sg". */
  lemma CountryCodeIsSgUnlessListed(country: string)
    ensures GetCountryCode(country) != "sg" <==>
      country in {"Bangladesh", "China", "India", "Malaysia", "Indonesia"}
  {
  }

  /** `getNationalitySummary` with the fixed country-code table. */
  function GetNationalitySummary(data: seq<Case>): (summary: seq<NationalityTally.NationalityEntry<string>>)
    ensures |summary| <= |data|
    ensures forall i :: 0 <= i < |summary| ==>
      && summary[i].nationality in Nationalities(data)
      && summary[i].count == Count(Nationalities(data), summary[i].nationality) >= 1
      && summary[i].countryCode == GetCountryCode(summary[i].nationality)
    ensures forall i, j :: 0 <= i < j < |summary| ==> summary[i].nationality != summary[j].nationality
  {
    NationalityTally.Summary(Nationalities(data), GetCountryCode)
  }

  /** The nationality counts add up to the number of cases. */
  lemma NationalityCountsSumToCases(data: seq<Case>)
    ensures NationalityTally.SumCounts(GetNationalitySummary(data)) == GetNumberOfCases(data)
  {
    NationalityTally.SummaryCountsSumToRecords(Nationalities(data), GetCountryCode);
  }

  /** Every tally row carries a two-letter country code. */
  lemma NationalitySummaryCodesAreTwoLetters(data: seq<Case>)
    ensures forall e :: e in GetNationalitySummary(data) ==> |e.countryCode| == 2
  {
  }
}
