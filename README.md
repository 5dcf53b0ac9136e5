# Singapore COVID-19 tracker: case-record derivations

This project is a Dafny model of the data logic behind a small web page that tracks COVID-19 cases in Singapore. The page loads one CSV row per confirmed case. `src/App.js` shows these things derived from the rows:

- the confirmed date of the last record;
- the number of cases, the number in treatment and the number discharged;
- a tally of cases by nationality, with a flag per country code;
- a map of where each case stayed, coloured by treatment status.

`src/components/AgeBars.jsx`, which `App.js` does not mount, draws each age bracket's label and its count scaled by the largest count. The gender and treatment splits of each bracket, the cluster-location list and the date bounds are computed in `src/helpers/getData.js`, but none of `src/App.js`, `src/components/*.jsx` or `src/data/getData.js` calls them.

The derivations come in two versions, and the model covers both:

- **`src/helpers/getData.js`** is the richer version. It is modelled in module `HelpersGetData` and covers:
  - discharge status against an as-of date;
  - the discharged count at the last record's confirmed date;
  - the nationality tally, with a country-code lookup that matches substrings in a country table;
  - cluster locations;
  - the date bounds;
  - the fixed eight-bracket age tally and its maximum.
- **`src/data/getData.js`** is the simpler version. It is modelled in module `DataGetData` and covers:
  - row normalisation, including the comma split of the position coordinate;
  - a discharged count that only tests whether the discharge-date text is present;
  - the same nationality tally;
  - a fixed `switch` country-code table.
- **`getPoints`** in `src/components/Map.jsx` maps each case to a map marker. It is modelled in module `MapPoints`.

The supporting modules are:

- `Rows` holds the raw CSV row, with one string field per column the derivations read (the source keeps every column); d3 gives an empty string for an empty cell.
  - It holds a JavaScript number that may be `undefined` or `NaN`.
  - It holds the parsers for integers, floats and dates. These are passed in as function values.
- `Sequences` models the array idioms:
  - `filter`;
  - counting;
  - `[...new Set(xs)]`, which keeps distinct values in first-appearance order;
  - `shift`;
  - lodash `maxBy`, which picks the first element with the largest key.
- `Strings` models `split` with a one-character separator, and `includes`.
- `NationalityTally` holds the tally that both versions of `getNationalitySummary` compute. It is parameterised by the country-code lookup.
- `Wrappers` holds `Option`. `None` stands for `undefined`, `null`, or a date or number that did not parse.

Dates are day ordinals. A date that the date library cannot parse is `None`. Throughout, `GetNumberOfCases(data)` is `|data|`.

## Model

| member | source | states |
|---|---|---|
| HelpersGetData.ProcessData | src/helpers/getData.js:7-20 | One case per row, in order. Each case keeps the raw row and adds the parsed case number, confirmed date, discharge date and age. The coordinate is the pair [POS_LOCATION_LAT, POS_LOCATION_LONG]. |
| HelpersGetData.CheckDischarge | src/helpers/getData.js:63-71 | Defined as: both the discharge date and the as-of date are valid, and the discharge date is not later. Its properties are proved by the three lemmas below. |
| HelpersGetData.NoDischargeDateNeverDischarged | src/helpers/getData.js:63-66 | A case with a missing or invalid discharge date is never discharged, at any as-of date. |
| HelpersGetData.DischargedFromDischargeDate | src/helpers/getData.js:63-71 | With a valid discharge date and a valid as-of date, a case is discharged exactly when its discharge date is on or before the as-of date. |
| HelpersGetData.CheckDischargeMonotone | src/helpers/getData.js:63-71 | A case discharged at some date is still discharged at every later date. |
| HelpersGetData.GetNumberOfCases | src/helpers/getData.js:23 | Defined as the number of cases. The tally lemmas compare their sums with it. |
| HelpersGetData.GetNumberOfDischarged | src/helpers/getData.js:26-29 | Requires a non-empty input, because the source reads the last record. Defined as the number of cases discharged at the last record's confirmed date. The contract states that it never exceeds the number of cases, and equals it exactly when every case is discharged at that date. It is 0 exactly when no case is, and 0 whenever the last record's date is invalid. |
| HelpersGetData.DischargedCountMonotone | src/helpers/getData.js:26-29 | A later as-of date never gives a smaller discharged count. |
| HelpersGetData.Nationalities | src/helpers/getData.js:33 | The NATIONALITY of each case, in case order. |
| HelpersGetData.FindCountryIndex | src/helpers/getData.js:75 | Gives -1 exactly when no table name contains the query. Otherwise it gives the first index whose name contains the query. |
| HelpersGetData.GetCountryCode | src/helpers/getData.js:73-77 | "Singapore PR" gives "sg". Any other query gives undefined exactly when no table name contains it; otherwise it gives the code of the first entry whose name contains it. |
| HelpersGetData.ExactCountryNameResolves | src/helpers/getData.js:73-77 | A query equal to a name in the table always resolves to a code. |
| HelpersGetData.GetNationalitySummary | src/helpers/getData.js:32-39 | At most one entry per case, and no two entries share a nationality. Each entry's nationality occurs in the data, its count is the number of cases with that nationality (at least 1), and its code is the substring lookup's result. Completeness, order and the sum are proved by NationalityTally.SummaryListsEveryNationalityInOrder and HelpersGetData.NationalityCountsSumToCases. |
| HelpersGetData.NationalityCountsSumToCases | src/helpers/getData.js:32-39 | The nationality counts add up to the number of cases. |
| HelpersGetData.ClusterIds | src/helpers/getData.js:43 | The CLUSTER_LOCATION_ID of each case, in case order. |
| HelpersGetData.ClusterCountMatchesIds | src/helpers/getData.js:49 | The number of cases with a given cluster id equals the number of times that id occurs among the ids. |
| HelpersGetData.ClusterLocationOf | src/helpers/getData.js:47-60 | For an id that occurs, the entry carries that id. Its case count is the number of cases with the id, which is at least 1. |
| HelpersGetData.ClusterLocationFromFirstCase | src/helpers/getData.js:48-58 | The name and coordinates of an entry come from the first case that carries its id. |
| HelpersGetData.GetClusterLocations | src/helpers/getData.js:42-61 | One entry per distinct cluster id except the first, in first-appearance order, so there is one entry fewer than there are distinct ids, or none when there are no ids. Each entry's case count is the number of cases with its id, and is at least 1. Each entry's name and coordinates are those of the first case that carries its id. |
| HelpersGetData.ClusterLocationsDistinctInOrder | src/helpers/getData.js:43-47 | No two entries share an id, and the entries follow the order in which their ids first appear. |
| HelpersGetData.FirstCaseClusterIsDropped | src/helpers/getData.js:43-45 | The first case's cluster id never appears in the output, whatever that id is. |
| HelpersGetData.EmptyClusterKeptUnlessFirst | src/helpers/getData.js:43-47 | If the first case belongs to a cluster and some later case has an empty cluster id, the list as written contains an entry whose id is empty. |
| HelpersGetData.ClusterIdsIntended | src/helpers/getData.js:43-45 | The distinct non-empty cluster ids, without duplicates. This is the corrected id list. |
| HelpersGetData.GetClusterLocationsIntended | src/helpers/getData.js:42-61 | The corrected cluster list has one entry per distinct non-empty id. Each entry carries its id and a case count of at least 1. |
| HelpersGetData.IntendedListsEachRealClusterOnce | src/helpers/getData.js:42-61 | The corrected list has every non-empty cluster id exactly once and never lists the empty id. |
| HelpersGetData.IntendedKeepsFirstCaseCluster | src/helpers/getData.js:43-45 | If the first case has a real cluster id, the corrected list keeps that cluster and the list as written drops it. |
| HelpersGetData.GetDatesAndDuration | src/helpers/getData.js:80-95 | Empty input gives the sentinel: 1 day, 10000 ms and null bounds. Otherwise the bounds are the first and last records' confirmed dates. The day count is last minus first, and is undefined exactly when either date is invalid. |
| HelpersGetData.SortedDatesSpan | src/helpers/getData.js:83-86 | On data sorted by confirmed date, the day span is not negative and the bounds enclose every confirmed date. |
| HelpersGetData.GroupOf | src/helpers/getData.js:141-157 | A group keeps its bracket's label, min and max. Its count is the number of cases with min ≤ age ≤ max. Female + male + other = count. Each split is exactly the data filtered to the bracket's cases of its gender: same cases, same multiplicities, same order. The discharged figure counts the bracket's cases discharged at the latest date, and discharged + treatment = count. |
| HelpersGetData.GroupsOf | src/helpers/getData.js:141 | One group per bracket, in bracket order. |
| HelpersGetData.GroupDataByAge | src/helpers/getData.js:97-163 | Requires a non-empty input. Gives exactly eight groups, one per fixed bracket from "80 +" down to "0 - 19", each being that bracket's group with treatment judged at the last record's confirmed date. In each group, female + male + other = count, the discharged figure counts the bracket's cases discharged at that date, and discharged + treatment = count. `max` is at least every group's count and equals some group's count. |
| HelpersGetData.AgeBracketsDisjoint | src/helpers/getData.js:98-139 | No age falls in two brackets of the table. |
| HelpersGetData.TableCoversAgeRangeOnce | src/helpers/getData.js:98-139 | An age in 0..100 falls in exactly one bracket, and any other age (or an unparsed one) in none. |
| HelpersGetData.TableGroupsSum | src/helpers/getData.js:141-158 | The bracket counts add up to the number of cases aged 0..100. The discharged figures add up to the number of those cases that are discharged. |
| HelpersGetData.AgeGroupCountsConserveCases | src/helpers/getData.js:141-162 | The bracket counts of the age tally add up to at most the number of cases, and to exactly that number when every age is in 0..100. |
| HelpersGetData.AgeGroupsAgreeWithDischargedCount | src/helpers/getData.js:144-155 | When every age is in 0..100, the discharged figures of the age tally add up to the discharged count. |
| NationalityTally.Summary | src/helpers/getData.js:32-39 | One entry per nationality, with no two entries alike. Each entry has key equal to nationality, a count equal to the number of records with that nationality (at least 1), and that nationality's country code. |
| NationalityTally.SummaryListsEveryNationalityInOrder | src/data/getData.js:26-33 | Every nationality of the input has an entry, and the entries follow first appearance. |
| NationalityTally.SummaryCountsSumToRecords | src/data/getData.js:29-32 | The counts of the tally add up to the number of records. |
| DataGetData.CoordComponent | src/data/getData.js:12 | An empty piece gives undefined, and a non-empty piece gives its parsed float. |
| DataGetData.ParseCoord | src/data/getData.js:12 | One component per comma-separated piece of the coordinate text, in order, which is one more than the number of commas. |
| DataGetData.ParseCoordPair | src/data/getData.js:12 | The text "lat,long" with two non-empty, comma-free parts gives exactly the two parsed numbers. |
| DataGetData.ProcessData | src/data/getData.js:4-17 | One case per row, in order. Each case keeps the raw row and adds the parsed case number, both dates and age, plus the parsed coordinate. |
| DataGetData.GetNumberOfCases | src/data/getData.js:20 | Defined as the number of cases. The tally and marker lemmas compare their sums with it. |
| DataGetData.GetNumberOfDischarged | src/data/getData.js:23 | Never exceeds the number of cases. It equals the number of cases exactly when every case has discharge-date text. |
| DataGetData.Nationalities | src/data/getData.js:27 | The NATIONALITY of each case, in case order. |
| DataGetData.GetCountryCode | src/data/getData.js:35-54 | Total. Each of the seven listed names gives its fixed code, every other string gives "sg", and the result always has two letters. |
| DataGetData.CountryCodeIsSgUnlessListed | src/data/getData.js:35-54 | The code differs from "sg" exactly for Bangladesh, China, India, Malaysia and Indonesia. |
| DataGetData.GetNationalitySummary | src/data/getData.js:26-33 | At most one entry per case, and no two entries share a nationality. Each entry's nationality occurs in the data, its count is the number of cases with that nationality (at least 1), and its code comes from the fixed table. Completeness, order and the sum are proved by NationalityTally.SummaryListsEveryNationalityInOrder and DataGetData.NationalityCountsSumToCases. |
| DataGetData.NationalityCountsSumToCases | src/data/getData.js:26-33 | The nationality counts add up to the number of cases. |
| DataGetData.NationalitySummaryCodesAreTwoLetters | src/data/getData.js:31 | Every tally entry carries a two-letter country code. |
| MapPoints.CoordAt | src/components/Map.jsx:29-30 | An index inside the coordinate array gives that component; past the end it gives undefined. |
| MapPoints.ToPoint | src/components/Map.jsx:18-32 | `caseNumber` and `key` are both CASE_NUMBER, and gender, age, nationality and cluster are copied. Status is "Discharged" exactly when DISCHARGE_DATE is non-empty, and "In treatment" otherwise. Colour is the discharged colour exactly when the status is "Discharged", and the treated colour exactly when it is "In treatment". The name is PLACE_OF_STAY, or "Unknown" when that is empty. lat and long are the first and second coordinate components. |
| MapPoints.GetPoints | src/components/Map.jsx:17-35 | One marker per case, in case order. |
| MapPoints.DischargedPointsMatchDischargedCount | src/components/Map.jsx:26 | The markers with status "Discharged" are exactly as many as the discharged count of the simpler getData. |
| MapPoints.TreatedPointsMatchInTreatmentCount | src/components/Map.jsx:26 | The markers with status "In treatment" are exactly as many as the number of cases minus the number discharged. |
| MapPoints.PointWithoutCommaHasNoLongitude | src/components/Map.jsx:29-30 | A case whose coordinate text has no comma gets an undefined longitude. |
| MapPoints.PointAtLatLong | src/components/Map.jsx:29-30 | A case whose coordinate text is "lat,long" is placed at those two parsed numbers. |
| Sequences.Filter | src/helpers/getData.js:28 | The result is no longer than the input. It holds exactly the input elements that pass the predicate. |
| Sequences.FilterComplement | src/helpers/getData.js:154-155 | Filtering by a predicate and by its negation splits the input: the two lengths add up to the input length. |
| Sequences.FilterPartition3 | src/helpers/getData.js:149-151 | Three predicates that each element satisfies exactly one of split the input into three parts, whose lengths add up to the input length. |
| Sequences.FilterFilter | src/helpers/getData.js:143-151 | Filtering by one predicate and then another is filtering once by their conjunction. |
| Sequences.FilterMonotone | src/helpers/getData.js:28 | A weaker predicate keeps at least as many elements. |
| Sequences.FilterFirst | src/helpers/getData.js:48 | The first element of a filtered sequence is the first input element that passes. |
| Sequences.Count | src/helpers/getData.js:36 | A count is at most the length, and it is positive exactly when the value occurs. |
| Sequences.CountIsMultiplicity | src/helpers/getData.js:36 | The count of a value is its multiplicity in the sequence. |
| Sequences.Distinct | src/helpers/getData.js:33 | No duplicates, and exactly the values of the input. |
| Sequences.DistinctInFirstAppearanceOrder | src/helpers/getData.js:33 | The distinct values appear in the order of their first occurrence in the input. |
| Sequences.DistinctHead | src/helpers/getData.js:43-45 | The first distinct value is the first input element. |
| Sequences.DistinctCountsSum | src/helpers/getData.js:33-36 | The counts of the distinct values add up to the input length. |
| Sequences.FirstIndex | src/helpers/getData.js:48 | The position where a value first occurs. |
| Sequences.DropFirst | src/helpers/getData.js:45 | Removes the head: one element fewer (none when empty), and the rest shifted down by one. |
| Sequences.MaxByIndex | src/helpers/getData.js:161 | The chosen element's key is at least every key, and strictly greater than every key before it, so it is the first maximum. |
| Strings.Split | src/data/getData.js:12 | At least one piece, and no piece contains the separator. |
| Strings.JoinSplit | src/data/getData.js:12 | Joining the pieces with the separator gives back the original text. |
| Strings.SplitJoin | src/data/getData.js:12 | Splitting pieces that were joined, none holding the separator, gives the pieces back. |
| Strings.SplitLength | src/data/getData.js:12 | There is one piece more than there are separators. |
| Strings.IncludesIffOccurs | src/helpers/getData.js:75 | `includes` holds exactly when the part occurs at some position of the text. |
| Strings.IncludesSelf | src/helpers/getData.js:75 | Every text includes itself. |

## Left out

- React components, rendering, state and effects are not modelled. This covers `App.js`, the tooltip, the age bars, the nationality tally component and the JSX parts of `Map.jsx`, all of which are UI.
- The d3 Albers projection, the `|| 10` placement fallback and the GeoJSON paths are not modelled. They are floating-point geometry in a foreign library.
- Loading the CSV with `d3.csv` is I/O, so the model starts from the rows. Every column is assumed present, as a possibly empty string.
- The content of `country-ISO2.json` is external data. The helpers lookup takes the table as a parameter sequence of (code, name) pairs, in the order of the JSON object.
- Flag image URLs are not modelled, because they are presentation.
- `parseInt`, `parseFloat` and the date library's format parsing are parameters. Their numeric results are not checked.
- Calendar arithmetic is not checked. Dates are day ordinals.
- HelpersGetData.GetDatesAndDuration: the bounds are day ordinals, not epoch milliseconds, and `milliseconds` is days × 86 400 000. The date library parses dates in the viewer's local time zone, and the model assumes that zone has no daylight-saving shifts. In a zone with such shifts, the source's `milliseconds` differs by an hour when the span crosses a change.
- HelpersGetData.CheckDischarge: the source defaults the as-of date to the current clock time. The model always takes the as-of date as an argument, because the clock is input.
- HelpersGetData.GetNumberOfDischarged and HelpersGetData.GroupDataByAge: on an empty input the source fails while reading the last record, so the model requires a non-empty input.
- The "dead" colour of the map palette is never used by `getPoints`, so it is not modelled.
- An age that parses to a non-integer cannot occur in the model, because `parseInt` yields integers or `NaN`. `NaN` is `None` and falls in no bracket.

## Findings

| source | as written | input that shows it | evidently intended | confidence | as-written member | corrected member |
|---|---|---|---|---|---|---|
| src/helpers/getData.js:43-45 | Drops the first distinct cluster id unconditionally. The comment assumes that id is always the empty id of a case with no cluster. | Data whose first case has CLUSTER_LOCATION_ID "1". Cluster "1" is then missing from the list, though it has cases. If a later case has no cluster, the empty id is listed as a cluster instead (HelpersGetData.EmptyClusterKeptUnlessFirst). | Drop only the empty id "", and keep every real cluster | medium, not executed | HelpersGetData.FirstCaseClusterIsDropped | HelpersGetData.GetClusterLocationsIntended |
